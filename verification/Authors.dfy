/**
  Authors, contributions and the conference that indexes them, changed in
  place. In every state the index holds what rebuilding it would give.
 */
module Authors {
  import opened AuthorIndex
  import opened AuthorKeys
  import opened Common

  /** `list.insert(index, part)`, or `append` without an index. */
  function Inserted<T>(s: seq<T>, at: Option<nat>, x: T): (r: seq<T>)
    ensures multiset(r) == multiset(s) + multiset{x}
  {
    if at.Some? && at.value < |s| then
      assert s == s[..at.value] + s[at.value..];
      s[..at.value] + [x] + s[at.value..]
    else s + [x]
  }

  /** `x` stands at the index asked for, or last, and the others stay as they were around it. */
  lemma InsertedIs<T>(s: seq<T>, at: Option<nat>, x: T)
    ensures var r, i := Inserted(s, at, x), if at.Some? then Min(at.value, |s|) else |s|;
            |r| == |s| + 1 && r[i] == x && r[..i] == s[..i] && r[i + 1..] == s[i..]
  {
    assert s == s[..|s|] + s[|s|..];
  }

  lemma ValuesAdded<T>(m: map<nat, T>, k: nat, x: T)
    requires k !in m && x !in m.Values
    ensures m[k := x].Values == m.Values + {x} && multiset(m[k := x].Values) == multiset(m.Values) + multiset{x}
  {
    var m' := m[k := x];
    assert k in m' && m'[k] == x;
    forall y | y in m.Values ensures y in m'.Values {
      var j :| j in m && m[j] == y;
      assert j in m' && m'[j] == y;
    }
    assert m'.Values == m.Values + {x};
    assert multiset(m.Values + {x}) == multiset(m.Values) + multiset{x};
  }

  lemma ValuesRemoved<T>(m: map<nat, T>, k: nat, x: T)
    requires k in m && m[k] == x && forall i :: i in m && i != k ==> m[i] != x
    ensures (m - {k}).Values == m.Values - {x} && multiset((m - {k}).Values) == multiset(m.Values) - multiset{x}
  {
    var m' := m - {k};
    forall y | y in m.Values - {x} ensures y in m'.Values {
      var j :| j in m && m[j] == y;
      assert j in m' && m'[j] == y;
    }
    assert m'.Values == m.Values - {x};
    assert multiset(m.Values - {x}) == multiset(m.Values) - multiset{x};
  }

  /** Writing `x` under `k` puts it beside the other values exactly if nothing is overwritten. */
  lemma ValuesOverwritten<T>(m: map<nat, T>, k: nat, x: T)
    requires forall i, j :: i in m && j in m && m[i] == m[j] ==> i == j
    requires forall i :: i in m && m[i] == x ==> i == k
    ensures multiset(m[k := x].Values) == multiset(m.Values) + multiset{x} <==> k !in m
  {
    if k !in m {
      ValuesAdded(m, k, x);
    } else if m[k] == x {
      assert m[k := x] == m;
      assert (multiset(m.Values) + multiset{x})[x] == multiset(m.Values)[x] + 1;
    } else {
      assert m[k] in m.Values;
      assert m[k] in multiset(m.Values) + multiset{x};
      assert m[k] !in m[k := x].Values;
    }
  }

  lemma ValueCounted<T>(m: map<nat, T>, k: nat)
    requires k in m
    ensures multiset(m.Values)[m[k]] > 0
  {
    assert m[k] in m.Values;
  }

  lemma Rekeyed<P>(keys: map<P, string>, keys': map<P, string>, p: P, k: string)
    requires p in keys && keys'.Keys == keys.Keys && keys'[p] == k
    requires forall q :: q in keys && q != p ==> keys'[q] == keys[q]
    ensures keys' == keys[p := k]
  {
  }

  /** The lists of people on the page of a contribution. */
  datatype Place = PrimaryAuthors | CoAuthors | Presenters

  /** At most one is taken, listed if those are `shown` that are in its place, and if `p` is listed it is `p`. */
  ghost predicate Fits<P>(listed: set<P>, taken: set<P>, p: P, shown: bool) {
    && (forall q, r :: q in taken && r in taken ==> q == r)
    && if shown then taken <= listed && (p in listed ==> taken == {p}) else taken !! listed
  }

  /** One of the lists of authors after a drag; nothing at all is taken out for the sake of the presenters. */
  function Dragged<T(==)>(list: Place, from: Place, to: Place, s: seq<T>, at: Option<nat>, x: T): seq<T> {
    var rest := if list == from && to != Presenters then WithoutFirst(s, x) else s;
    if list == to then Inserted(rest, at, x) else rest
  }

  lemma DraggedIs<T>(from: Place, to: Place, s: seq<T>, at: Option<nat>, x: T)
    ensures to == Presenters ==> forall list :: list != Presenters ==> Dragged(list, from, to, s, at, x) == s
    ensures to != Presenters && from != to ==> Dragged(to, from, to, s, at, x) == Inserted(s, at, x)
    ensures to != Presenters && from != to ==> Dragged(from, from, to, s, at, x) == WithoutFirst(s, x)
    ensures to != Presenters ==> Dragged(to, to, to, s, at, x) == Inserted(WithoutFirst(s, x), at, x)
    ensures forall list :: list != from && list != to ==> Dragged(list, from, to, s, at, x) == s
  {
  }

  class Participation {
    var firstName: string
    var familyName: string
    var email: string
    var contribution: Option<Contribution>
    var id: Option<nat>

    function Key(): string
      reads this`firstName, this`familyName, this`email
    {
      AuthorIndex.Key(familyName, firstName, email)
    }

    /** An author of a contribution that is in a conference and not withdrawn. */
    ghost predicate Listed()
      reads this`contribution, this`id
      reads (if contribution.Some? then {contribution.value} else {})`conference
      reads (if contribution.Some? then {contribution.value} else {})`authors
      reads (if contribution.Some? then {contribution.value} else {})`withdrawn
    {
      && contribution.Some? && contribution.value.conference.Some? && !contribution.value.withdrawn
      && contribution.value.HasAuthor(this)
    }

    constructor (firstName: string, familyName: string, email: string)
      ensures this.firstName == firstName && this.familyName == familyName && this.email == email
      ensures contribution == None && id == None
    {
      this.firstName, this.familyName, this.email := firstName, familyName, email;
      contribution, id := None, None;
    }

    ghost function KeyIn(P: set<Participation>): string
      reads this`firstName, this`familyName, this`email
    {
      if this in P then Key() else ""
    }

    // ---------------------------------------------------------- renaming

    /** `_unindex`. */
    method Unindex(ghost F: Conference, ghost C: set<Contribution>, ghost P: set<Participation>)
      requires F.Valid(C, P) && this in P
      modifies F`idx
      ensures F.InOrder(C, P) && Exact(F.idx, Conference.Keys(P), Conference.ListedAmong(P, C) - {this})
    {
      F.KnowsParticipation(this, C, P);
      UnindexingKeepsExact(F.idx, Conference.Keys(P), Conference.ListedAmong(P, C), this);
      assert this !in Conference.ListedAmong(P, C) ==>
          Conference.ListedAmong(P, C) - {this} == Conference.ListedAmong(P, C);
      if contribution.Some? && contribution.value.conference.Some? {
        contribution.value.conference.value.UnindexAuthor(this);
      }
    }

    /** `_index`. */
    method Index(ghost F: Conference, ghost C: set<Contribution>, ghost P: set<Participation>)
      requires F.InOrder(C, P) && this in P
      requires Exact(F.idx, Conference.Keys(P), Conference.ListedAmong(P, C) - {this})
      modifies F`idx
      ensures F.Valid(C, P)
    {
      F.KnowsParticipation(this, C, P);
      ghost var listed := Conference.ListedAmong(P, C);
      IndexingKeepsExact(F.idx, Conference.Keys(P), listed - {this}, this);
      assert if this in listed then listed - {this} + {this} == listed else listed - {this} == listed;
      if contribution.Some? && contribution.value.conference.Some? {
        contribution.value.conference.value.IndexAuthor(this);
      }
    }

    method PutFirstName(name: string, ghost m: set<Participation>, ghost F: Conference, ghost P: set<Participation>)
      requires this in P && this !in m && Exact(F.idx, Conference.Keys(P), m)
      modifies this`firstName
      ensures firstName == name && Exact(F.idx, Conference.Keys(P), m)
    {
      RenamingKeepsExact(F.idx, Conference.Keys(P), m, this, AuthorIndex.Key(familyName, name, email));
      ghost var keys: map<Participation, string> := Conference.Keys(P);
      firstName := name;
      Rekeyed(keys, Conference.Keys(P), this, Key());
    }

    method SetFirstName(name: string, ghost F: Conference, ghost C: set<Contribution>, ghost P: set<Participation>)
      requires F.Valid(C, P) && this in P
      modifies this`firstName, F`idx
      ensures F.Valid(C, P) && firstName == Strip(name)
    {
      var tmp := Strip(name);
      if tmp == firstName {
        return;
      }
      Unindex(F, C, P);
      PutFirstName(tmp, Conference.ListedAmong(P, C) - {this}, F, P);
      Index(F, C, P);
    }

    method PutFamilyName(name: string, ghost m: set<Participation>, ghost F: Conference, ghost P: set<Participation>)
      requires this in P && this !in m && Exact(F.idx, Conference.Keys(P), m)
      modifies this`familyName
      ensures familyName == name && Exact(F.idx, Conference.Keys(P), m)
    {
      RenamingKeepsExact(F.idx, Conference.Keys(P), m, this, AuthorIndex.Key(name, firstName, email));
      ghost var keys: map<Participation, string> := Conference.Keys(P);
      familyName := name;
      Rekeyed(keys, Conference.Keys(P), this, Key());
    }

    method SetFamilyName(name: string, ghost F: Conference, ghost C: set<Contribution>, ghost P: set<Participation>)
      requires F.Valid(C, P) && this in P
      modifies this`familyName, F`idx
      ensures F.Valid(C, P) && familyName == Strip(name)
    {
      var tmp := Strip(name);
      if tmp == familyName {
        return;
      }
      Unindex(F, C, P);
      PutFamilyName(tmp, Conference.ListedAmong(P, C) - {this}, F, P);
      Index(F, C, P);
    }

    method PutEmail(name: string, ghost m: set<Participation>, ghost F: Conference, ghost P: set<Participation>)
      requires this in P && this !in m && Exact(F.idx, Conference.Keys(P), m)
      modifies this`email
      ensures email == name && Exact(F.idx, Conference.Keys(P), m)
    {
      RenamingKeepsExact(F.idx, Conference.Keys(P), m, this, AuthorIndex.Key(familyName, firstName, name));
      ghost var keys: map<Participation, string> := Conference.Keys(P);
      email := name;
      Rekeyed(keys, Conference.Keys(P), this, Key());
    }

    method SetEmail(mail: string, ghost F: Conference, ghost C: set<Contribution>, ghost P: set<Participation>)
      requires F.Valid(C, P) && this in P
      modifies this`email, F`idx
      ensures F.Valid(C, P) && email == Strip(mail)
    {
      var tmp := Strip(mail);
      if tmp == email {
        return;
      }
      Unindex(F, C, P);
      PutEmail(tmp, Conference.ListedAmong(P, C) - {this}, F, P);
      Index(F, C, P);
    }
  }

  class Contribution {
    var conference: Option<Conference>
    var authors: map<nat, Participation>    // _authors
    var primary: seq<Participation>         // _primaryAuthors
    var coAuthors: seq<Participation>       // _coAuthors
    var next: nat                           // _authorGen
    var withdrawn: bool

    ghost predicate HasAuthor(p: Participation)
      reads this`authors, p`id
    {
      p.id.Some? && p.id.value in authors && authors[p.id.value] == p
    }

    /** No other author goes by the id of `p`, which may itself be an author or only a presenter. */
    ghost predicate OwnsId(p: Participation)
      reads this`authors, p`id
    {
      p.id.Some? && (p.id.value in authors ==> authors[p.id.value] == p)
    }

    ghost predicate AuthorKnown(P: set<Participation>, id: nat)
      requires id in authors
      reads this`authors, P`id, P`contribution
    {
      authors[id] in P && authors[id].id == Some(id) && authors[id].contribution == Some(this)
    }

    /** The two lists together hold exactly the authors, once each; every author knows where it belongs. */
    ghost predicate Coherent(P: set<Participation>)
      reads this`authors, this`primary, this`coAuthors, P`id, P`contribution
    {
      && (forall id {:trigger AuthorKnown(P, id)} :: id in authors ==> AuthorKnown(P, id))
      && multiset(primary) + multiset(coAuthors) == multiset(authors.Values)
    }

    // ------------------------------------------------- adding and removing

    /** The id `_addAuthor` gives: the one the participation has, or a new one. */
    function IdFor(p: Participation): nat
      reads this`next, p`id
    {
      if p.id.Some? then p.id.value else next
    }

    /** Nobody else in this contribution goes by the id that `_addAuthor` would give. */
    ghost predicate IdFree(p: Participation, P: set<Participation>)
      reads this`authors, this`next, p`id, P`id, P`contribution
    {
      && IdFor(p) !in authors
      && forall q :: q in P && q != p && q.contribution == Some(this) ==> q.id != Some(IdFor(p))
    }

    /** All ids given out in this contribution, to authors and presenters, are different and below the counter. */
    ghost predicate Numbered(P: set<Participation>)
      reads this`next, P`id, P`contribution
    {
      && (forall q :: q in P && q.contribution == Some(this) ==> q.id.Some? && q.id.value < next)
      && (forall q, r :: q in P && r in P && q.contribution == r.contribution == Some(this) && q.id == r.id ==> q == r)
    }

    /** Then a new participation, or a presenter who becomes an author, always gets a free id. */
    lemma NumberedIsFree(p: Participation, F: Conference, C: set<Contribution>, P: set<Participation>)
      requires F.InOrder(C, P) && this in C && p in P && Numbered(P)
      requires if p.contribution == Some(this) then !HasAuthor(p) else p.contribution == None && p.id == None
      ensures IdFree(p, P)
    {
      assert F.KnownParticipation(p, C) && F.KnownContribution(this, P);
      forall id | id in authors ensures id != IdFor(p) {
        assert AuthorKnown(P, id);
      }
    }

    /** `_addAuthor`. */
    method AddAuthor(p: Participation)
      modifies this`authors, this`next, p`contribution, p`id
      ensures authors == old(authors)[old(IdFor(p)) := p] && p.contribution == Some(this) && p.id == Some(old(IdFor(p)))
      ensures next == old(next) + if old(p.id) == None then 1 else 0
    {
      var newId := IdFor(p);
      if p.id == None {
        next := next + 1;
      }
      authors := authors[newId := p];
      p.contribution, p.id := Some(this), Some(newId);
    }

    /** `_removeAuthor`. */
    method RemoveAuthor(p: Participation)
      requires p.id.Some?
      modifies this`authors, p`contribution
      ensures if p.id.value in old(authors) then authors == old(authors) - {p.id.value} && p.contribution == None
              else authors == old(authors) && p.contribution == old(p.contribution)
    {
      if p.id.value in authors {
        authors := authors - {p.id.value};
        p.contribution := None;
      }
    }

    /** The author, if any, that goes by the id `_addAuthor` would give to `p`: another one, or `p` itself. */
    ghost function Taken(p: Participation): (t: set<Participation>)
      reads this`authors, this`next, p`id
    {
      if IdFor(p) in authors then {authors[IdFor(p)]} else {}
    }

    /** Are its authors in the index? */
    ghost predicate Shown()
      reads this`conference, this`withdrawn
    {
      conference.Some? && !withdrawn
    }

    /** Everything `addPrimaryAuthor` and `addCoAuthor` do but indexing. */
    method Enlist(p: Participation, asPrimary: bool, at: Option<nat>)
      modifies this`authors, this`next, this`primary, this`coAuthors, p`contribution, p`id
      ensures authors == old(authors)[old(IdFor(p)) := p] && p.contribution == Some(this)
      ensures p.id == Some(old(IdFor(p))) && next == old(next) + if old(p.id) == None then 1 else 0
      ensures primary == if asPrimary then Inserted(old(primary), at, p) else old(primary)
      ensures coAuthors == if asPrimary then old(coAuthors) else Inserted(old(coAuthors), at, p)
    {
      AddAuthor(p);
      if asPrimary {
        primary := Inserted(primary, at, p);
      } else {
        coAuthors := Inserted(coAuthors, at, p);
      }
    }

    /** No key changes with it. */
    method EnlistKeyed(p: Participation, asPrimary: bool, at: Option<nat>, ghost P: set<Participation>)
      modifies this`authors, this`next, this`primary, this`coAuthors, p`contribution, p`id
      ensures authors == old(authors)[old(IdFor(p)) := p] && p.contribution == Some(this)
      ensures p.id == Some(old(IdFor(p))) && next == old(next) + if old(p.id) == None then 1 else 0
      ensures primary == if asPrimary then Inserted(old(primary), at, p) else old(primary)
      ensures coAuthors == if asPrimary then old(coAuthors) else Inserted(old(coAuthors), at, p)
      ensures Conference.Keys(P) == old(Conference.Keys(P))
    {
      Enlist(p, asPrimary, at);
    }

    /** The lists still hold the authors if and only if nobody has been overwritten. */
    method EnlistHere(p: Participation, asPrimary: bool, at: Option<nat>, ghost P: set<Participation>)
      requires Coherent(P) && p in P && (p.contribution == None || (p.contribution == Some(this) && OwnsId(p)))
      modifies this`authors, this`next, this`primary, this`coAuthors, p`contribution, p`id
      ensures authors == old(authors)[old(IdFor(p)) := p] && p.contribution == Some(this)
      ensures p.id == Some(old(IdFor(p))) && next == old(next) + if old(p.id) == None then 1 else 0
      ensures primary == if asPrimary then Inserted(old(primary), at, p) else old(primary)
      ensures coAuthors == if asPrimary then old(coAuthors) else Inserted(old(coAuthors), at, p)
      ensures Coherent(P) <==> old(IdFor(p)) !in old(authors)
      ensures Conference.Keys(P) == old(Conference.Keys(P))
    {
      AuthorsDiffer(P);
      AuthorsElsewhere(p, P);
      ValuesOverwritten(authors, IdFor(p), p);
      EnlistKeyed(p, asPrimary, at, P);
      forall i | i in authors ensures AuthorKnown(P, i) {
        assert i in old(authors) ==> old(AuthorKnown(P, i));
      }
    }

    lemma AuthorsDiffer(P: set<Participation>)
      requires Coherent(P)
      ensures forall i, j :: i in authors && j in authors && authors[i] == authors[j] ==> i == j
    {
      forall i, j | i in authors && j in authors && authors[i] == authors[j] ensures i == j {
        assert AuthorKnown(P, i) && AuthorKnown(P, j);
      }
    }

    lemma AuthorsElsewhere(p: Participation, P: set<Participation>)
      requires Coherent(P) && (p.contribution == None || (p.contribution == Some(this) && OwnsId(p)))
      ensures forall i :: i in authors && authors[i] == p ==> i == IdFor(p)
    {
      forall i | i in authors && authors[i] == p ensures i == IdFor(p) {
        assert AuthorKnown(P, i);
      }
    }

    /** Who is listed then. */
    method EnlistListed(p: Participation, asPrimary: bool, at: Option<nat>, ghost listed: set<Participation>,
                        ghost taken: set<Participation>, ghost C: set<Contribution>, ghost P: set<Participation>)
      requires Coherent(P) && p in P && (p.contribution == None || (p.contribution == Some(this) && OwnsId(p)))
      requires this in C && listed == Conference.ListedAmong(P, C) && taken == Taken(p)
      modifies this`authors, this`next, this`primary, this`coAuthors, p`contribution, p`id
      ensures authors == old(authors)[old(IdFor(p)) := p] && p.contribution == Some(this)
      ensures p.id == Some(old(IdFor(p))) && HasAuthor(p)
      ensures primary == if asPrimary then Inserted(old(primary), at, p) else old(primary)
      ensures coAuthors == if asPrimary then old(coAuthors) else Inserted(old(coAuthors), at, p)
      ensures Coherent(P) <==> old(IdFor(p)) !in old(authors)
      ensures next == old(next) + if old(p.id) == None then 1 else 0
      ensures Conference.ListedAmong(P, C) == listed - taken + if Shown() then {p} else {}
      ensures Conference.Keys(P) == old(Conference.Keys(P))
    {
      ghost var id := IdFor(p);
      assert id in authors ==> AuthorKnown(P, id);
      EnlistHere(p, asPrimary, at, P);
      forall q | q in P && q != p
        ensures q in Conference.ListedAmong(P, C) <==> q in listed - taken
      {
      }
    }

    /** A contribution starts outside any conference and without authors. */
    constructor ()
      ensures conference == None && authors == map[] && primary == [] && coAuthors == [] && next == 0 && !withdrawn
    {
      conference, authors, primary, coAuthors, next, withdrawn := None, map[], [], [], 0, false;
    }

    /** `newSpeaker`: a presenter is numbered like the authors, but not listed as one. */
    method NewSpeaker(p: Participation, ghost F: Conference, ghost C: set<Contribution>, ghost P: set<Participation>)
      requires F.Valid(C, P) && this in C && p in P && (p.contribution == None || p.contribution == Some(this))
      modifies this`next, p`contribution, p`id
      ensures p.contribution == Some(this) && p.id == Some(old(IdFor(p)))
      ensures F.Valid(C, P) <==> old(p.contribution) == Some(this) || old(IdFor(p)) !in authors
      ensures old(Numbered(P)) && old(p.contribution == Some(this)) ==> Numbered(P)
      ensures old(Numbered(P) && IdFree(p, P) && (p.id.Some? ==> p.id.value < next)) ==> Numbered(P)
    {
      assert F.KnownContribution(this, P) && F.KnownParticipation(p, C);
      F.SetAside(this, p, C, P);
      ghost var fine := p.contribution == Some(this) || IdFor(p) !in authors;
      PresentListed(p, C, P);
      if fine {
        F.BringBack(this, p, C, P);
        forall q | q in P ensures F.KnownParticipation(q, C) {
          assert old(F.KnownParticipation(q, C));
        }
      } else {
        assert !F.KnownParticipation(p, C);
      }
    }

    method PresentListed(p: Participation, ghost C: set<Contribution>, ghost P: set<Participation>)
      requires Coherent(P) && p in P && (p.contribution == None || (p.contribution == Some(this) && OwnsId(p)))
      modifies this`next, p`contribution, p`id
      ensures Coherent(P) && p.contribution == Some(this) && p.id == Some(old(IdFor(p)))
      ensures old(p.contribution) == None && old(IdFor(p)) in authors ==> authors[old(IdFor(p))] != p
      ensures next == old(next) + if old(p.id) == None then 1 else 0
      ensures Conference.ListedAmong(P, C) == old(Conference.ListedAmong(P, C))
    {
      AuthorsElsewhere(p, P);
      assert IdFor(p) in authors ==> AuthorKnown(P, IdFor(p));
      Present(p, P);
    }

    method Present(p: Participation, ghost P: set<Participation>)
      requires Coherent(P) && p in P && (p.contribution == None || (p.contribution == Some(this) && OwnsId(p)))
      modifies this`next, p`contribution, p`id
      ensures Coherent(P) && p.contribution == Some(this) && p.id == Some(old(IdFor(p)))
      ensures next == old(next) + if old(p.id) == None then 1 else 0
    {
      AuthorsElsewhere(p, P);
      var newId := IdFor(p);
      if p.id == None {
        next := next + 1;
      }
      p.contribution, p.id := Some(this), Some(newId);
      forall i | i in authors ensures AuthorKnown(P, i) {
        assert old(AuthorKnown(P, i));
      }
    }

    lemma TakenIsListed(p: Participation, F: Conference, C: set<Contribution>, P: set<Participation>)
      requires F.InOrder(C, P) && this in C && p in P && (p.contribution == None || p.contribution == Some(this))
      ensures conference == None || conference == Some(F)
      ensures Shown() ==> Taken(p) <= Conference.ListedAmong(P, C)
      ensures p in Conference.ListedAmong(P, C) ==> Shown() && Taken(p) == {p}
      ensures !Shown() ==> Taken(p) !! Conference.ListedAmong(P, C)
    {
      assert F.KnownContribution(this, P) && F.KnownParticipation(p, C);
      assert IdFor(p) in authors ==> AuthorKnown(P, IdFor(p));
    }

    /** Both ways of adding: in order if and only if the id is free, with an exact index if nobody has it. */
    method Add(p: Participation, asPrimary: bool, at: Option<nat>, ghost F: Conference,
               ghost C: set<Contribution>, ghost P: set<Participation>)
      requires F.Valid(C, P) && this in C && p in P && (p.contribution == None || p.contribution == Some(this))
      modifies this`authors, this`next, this`primary, this`coAuthors, p`contribution, p`id, F`idx
      ensures authors == old(authors)[old(IdFor(p)) := p] && p.contribution == Some(this)
      ensures p.id == Some(old(IdFor(p)))
      ensures primary == if asPrimary then Inserted(old(primary), at, p) else old(primary)
      ensures coAuthors == if asPrimary then old(coAuthors) else Inserted(old(coAuthors), at, p)
      ensures Exact(F.idx, Conference.Keys(P), Conference.ListedAmong(P, C)) <==>
                !Shown() || old(IdFor(p)) !in old(authors)
      ensures F.InOrder(C, P) <==> old(IdFree(p, P))
      ensures old(Numbered(P) && IdFree(p, P) && (p.id.Some? ==> p.id.value < next)) ==> Numbered(P)
    {
      assert F.KnownContribution(this, P) && F.KnownParticipation(p, C);
      F.SetAside(this, p, C, P);
      TakenIsListed(p, F, C, P);
      assert Fits(Conference.ListedAmong(P, C), Taken(p), p, Shown());
      ghost var id := IdFor(p);
      AddIndexed(p, asPrimary, at, Conference.ListedAmong(P, C), Taken(p), F, C, P);
      if old(IdFree(p, P)) {
        F.BringBack(this, p, C, P);
        forall q | q in P ensures F.KnownParticipation(q, C) {
          assert old(F.KnownParticipation(q, C));
        }
      } else if F.InOrder(C, P) {
        assert F.KnownContribution(this, P);
        forall q | q in P && q != p && q.contribution == Some(this) ensures q.id != Some(id) {
          assert F.KnownParticipation(q, C);
        }
      }
    }

    method AddIndexed(p: Participation, asPrimary: bool, at: Option<nat>, ghost listed: set<Participation>,
                      ghost taken: set<Participation>, ghost F: Conference,
                      ghost C: set<Contribution>, ghost P: set<Participation>)
      requires Coherent(P) && p in P && (p.contribution == None || (p.contribution == Some(this) && OwnsId(p)))
      requires this in C && (conference == None || conference == Some(F))
      requires listed == Conference.ListedAmong(P, C) && taken == Taken(p)
      requires Exact(F.idx, Conference.Keys(P), listed)
      requires Fits(listed, taken, p, Shown())
      modifies this`authors, this`next, this`primary, this`coAuthors, p`contribution, p`id, F`idx
      ensures authors == old(authors)[old(IdFor(p)) := p] && p.contribution == Some(this)
      ensures p.id == Some(old(IdFor(p))) && next == old(next) + if old(p.id) == None then 1 else 0
      ensures primary == if asPrimary then Inserted(old(primary), at, p) else old(primary)
      ensures coAuthors == if asPrimary then old(coAuthors) else Inserted(old(coAuthors), at, p)
      ensures Coherent(P) <==> old(IdFor(p)) !in old(authors)
      ensures Exact(F.idx, Conference.Keys(P), Conference.ListedAmong(P, C)) <==> !Shown() || taken == {}
    {
      ghost var keys: map<Participation, string> := Conference.Keys(P);
      AddKeyed(p, asPrimary, at, keys, listed, taken, F, C, P);
    }

    method AddKeyed(p: Participation, asPrimary: bool, at: Option<nat>, ghost keys: map<Participation, string>,
                    ghost listed: set<Participation>, ghost taken: set<Participation>, ghost F: Conference,
                    ghost C: set<Contribution>, ghost P: set<Participation>)
      requires Coherent(P) && p in P && (p.contribution == None || (p.contribution == Some(this) && OwnsId(p)))
      requires this in C && (conference == None || conference == Some(F))
      requires p in keys && keys[p] == p.Key() && listed == Conference.ListedAmong(P, C) && taken == Taken(p)
      requires Exact(F.idx, keys, listed)
      requires Fits(listed, taken, p, Shown())
      modifies this`authors, this`next, this`primary, this`coAuthors, p`contribution, p`id, F`idx
      ensures authors == old(authors)[old(IdFor(p)) := p] && p.contribution == Some(this)
      ensures p.id == Some(old(IdFor(p))) && next == old(next) + if old(p.id) == None then 1 else 0
      ensures primary == if asPrimary then Inserted(old(primary), at, p) else old(primary)
      ensures coAuthors == if asPrimary then old(coAuthors) else Inserted(old(coAuthors), at, p)
      ensures Coherent(P) <==> old(IdFor(p)) !in old(authors)
      ensures Exact(F.idx, keys, Conference.ListedAmong(P, C)) <==> !Shown() || taken == {}
      ensures Conference.Keys(P) == old(Conference.Keys(P))
    {
      EnlistListed(p, asPrimary, at, listed, taken, C, P);
      IndexAdded(p, keys, listed, taken, F, C, P);
    }

    method IndexAdded(p: Participation, ghost keys: map<Participation, string>, ghost listed: set<Participation>,
                      ghost taken: set<Participation>, ghost F: Conference,
                      ghost C: set<Contribution>, ghost P: set<Participation>)
      requires p in P && p.contribution == Some(this) && HasAuthor(p) && (conference == None || conference == Some(F))
      requires p in keys && keys[p] == p.Key() && Exact(F.idx, keys, listed)
      requires Fits(listed, taken, p, Shown())
      modifies F`idx
      ensures Exact(F.idx, keys, listed - taken + if Shown() then {p} else {}) <==> !Shown() || taken == {}
      ensures Conference.Keys(P) == old(Conference.Keys(P))
      ensures Conference.ListedAmong(P, C) == old(Conference.ListedAmong(P, C))
    {
      ghost var was := F.idx;
      if Shown() {
        AddingKeepsExact(was, keys, listed, taken, p);
      } else {
        assert listed - taken + {} == listed;
      }
      if conference.Some? {
        conference.value.IndexAuthor(p);
        assert F.idx == if withdrawn then was else Indexed(was, keys[p], p);
      }
    }

    /** `addPrimaryAuthor`. */
    method AddPrimaryAuthor(p: Participation, at: Option<nat>, ghost F: Conference, ghost C: set<Contribution>,
                            ghost P: set<Participation>)
      requires F.Valid(C, P) && this in C && p in P && (p.contribution == None || p.contribution == Some(this))
      modifies this`authors, this`next, this`primary, this`coAuthors, p`contribution, p`id, F`idx
      ensures authors == old(authors)[old(IdFor(p)) := p] && p.contribution == Some(this)
      ensures p.id == Some(old(IdFor(p))) && p.id == if old(p.id).Some? then old(p.id) else Some(old(next))
      ensures primary == Inserted(old(primary), at, p) && coAuthors == old(coAuthors)
      ensures Exact(F.idx, Conference.Keys(P), Conference.ListedAmong(P, C)) <==>
                conference == None || withdrawn || old(IdFor(p)) !in old(authors)
      ensures F.Valid(C, P) <==> old(IdFree(p, P))
      ensures old(Numbered(P) && IdFree(p, P) && (p.id.Some? ==> p.id.value < next)) ==> Numbered(P)
    {
      Add(p, true, at, F, C, P);
    }

    /** `addCoAuthor`. */
    method AddCoAuthor(p: Participation, at: Option<nat>, ghost F: Conference, ghost C: set<Contribution>,
                       ghost P: set<Participation>)
      requires F.Valid(C, P) && this in C && p in P && (p.contribution == None || p.contribution == Some(this))
      modifies this`authors, this`next, this`primary, this`coAuthors, p`contribution, p`id, F`idx
      ensures authors == old(authors)[old(IdFor(p)) := p] && p.contribution == Some(this)
      ensures p.id == Some(old(IdFor(p))) && p.id == if old(p.id).Some? then old(p.id) else Some(old(next))
      ensures primary == old(primary) && coAuthors == Inserted(old(coAuthors), at, p)
      ensures Exact(F.idx, Conference.Keys(P), Conference.ListedAmong(P, C)) <==>
                conference == None || withdrawn || old(IdFor(p)) !in old(authors)
      ensures F.Valid(C, P) <==> old(IdFree(p, P))
      ensures old(Numbered(P) && IdFree(p, P) && (p.id.Some? ==> p.id.value < next)) ==> Numbered(P)
    {
      Add(p, false, at, F, C, P);
    }

    /** `removePrimaryAuthor`. */
    method RemovePrimaryAuthor(p: Participation, ghost F: Conference, ghost C: set<Contribution>,
                               ghost P: set<Participation>)
      requires F.Valid(C, P) && this in C
      modifies this`authors, this`primary, this`coAuthors, p`contribution, F`idx
      ensures F.Valid(C, P) && coAuthors == old(coAuthors) && (old(Numbered(P)) ==> Numbered(P))
      ensures p in old(primary) ==>
                && p.id.Some? && authors == old(authors) - {p.id.value} && primary == WithoutFirst(old(primary), p)
                && p.contribution == None && (old(Numbered(P)) ==> IdFree(p, P) && p.id.value < next)
      ensures p !in old(primary) ==>
                authors == old(authors) && primary == old(primary) && p.contribution == old(p.contribution)
    {
      if p in primary {
        Remove(p, true, F, C, P);
      }
    }

    /** `removeCoAuthor`. */
    method RemoveCoAuthor(p: Participation, ghost F: Conference, ghost C: set<Contribution>,
                          ghost P: set<Participation>)
      requires F.Valid(C, P) && this in C
      modifies this`authors, this`primary, this`coAuthors, p`contribution, F`idx
      ensures F.Valid(C, P) && primary == old(primary) && (old(Numbered(P)) ==> Numbered(P))
      ensures p in old(coAuthors) ==>
                && p.id.Some? && authors == old(authors) - {p.id.value} && coAuthors == WithoutFirst(old(coAuthors), p)
                && p.contribution == None && (old(Numbered(P)) ==> IdFree(p, P) && p.id.value < next)
      ensures p !in old(coAuthors) ==>
                authors == old(authors) && coAuthors == old(coAuthors) && p.contribution == old(p.contribution)
    {
      if p in coAuthors {
        Remove(p, false, F, C, P);
      }
    }

    /** Both ways of removing. The id stays free for the author to come back. */
    method Remove(p: Participation, asPrimary: bool, ghost F: Conference, ghost C: set<Contribution>,
                  ghost P: set<Participation>)
      requires F.Valid(C, P) && this in C && if asPrimary then p in primary else p in coAuthors
      modifies this`authors, this`primary, this`coAuthors, p`contribution, F`idx
      ensures F.Valid(C, P)
      ensures p.id.Some? && authors == old(authors) - {p.id.value} && p.contribution == None
      ensures primary == if asPrimary then WithoutFirst(old(primary), p) else old(primary)
      ensures coAuthors == if asPrimary then old(coAuthors) else WithoutFirst(old(coAuthors), p)
      ensures old(Numbered(P)) ==> Numbered(P) && IdFree(p, P) && p.id.value < next
    {
      InLists(p, F, C, P);
      p.Unindex(F, C, P);
      Release(p, asPrimary, F, C, P);
    }

    /** An author that is out of the index already leaves the lists too. */
    method Release(p: Participation, asPrimary: bool, ghost F: Conference, ghost C: set<Contribution>,
                   ghost P: set<Participation>)
      requires F.InOrder(C, P) && this in C && p in P && p.contribution == Some(this) && HasAuthor(p)
      requires Exact(F.idx, Conference.Keys(P), Conference.ListedAmong(P, C) - {p})
      requires if asPrimary then p in primary else p in coAuthors
      modifies this`authors, this`primary, this`coAuthors, p`contribution
      ensures F.Valid(C, P) && authors == old(authors) - {p.id.value} && p.contribution == None
      ensures primary == if asPrimary then WithoutFirst(old(primary), p) else old(primary)
      ensures coAuthors == if asPrimary then old(coAuthors) else WithoutFirst(old(coAuthors), p)
      ensures old(Numbered(P)) ==> Numbered(P) && IdFree(p, P) && p.id.value < next
    {
      Delist(p, asPrimary, F, C, P);
    }

    lemma InLists(p: Participation, F: Conference, C: set<Contribution>, P: set<Participation>)
      requires F.InOrder(C, P) && this in C && (p in primary || p in coAuthors)
      ensures p in P && p.contribution == Some(this) && HasAuthor(p)
    {
      assert F.KnownContribution(this, P);
      assert p in multiset(primary) + multiset(coAuthors);
      assert p in authors.Values;
      var id :| id in authors && authors[id] == p;
      assert AuthorKnown(P, id);
    }

    /** Everything the removals do but unindexing. */
    method Delist(p: Participation, asPrimary: bool, ghost F: Conference, ghost C: set<Contribution>,
                  ghost P: set<Participation>)
      requires F.InOrder(C, P) && this in C && p in P && p.contribution == Some(this) && HasAuthor(p)
      requires if asPrimary then p in primary else p in coAuthors
      modifies this`authors, this`primary, this`coAuthors, p`contribution
      ensures F.InOrder(C, P) && authors == old(authors) - {p.id.value} && p.contribution == None
      ensures primary == if asPrimary then WithoutFirst(old(primary), p) else old(primary)
      ensures coAuthors == if asPrimary then old(coAuthors) else WithoutFirst(old(coAuthors), p)
      ensures Conference.ListedAmong(P, C) == old(Conference.ListedAmong(P, C)) - {p}
      ensures old(Numbered(P)) ==> Numbered(P) && IdFree(p, P) && p.id.value < next
    {
      assert F.KnownContribution(this, P);
      F.SetAside(this, p, C, P);
      DelistHere(p, asPrimary, P);
      F.BringBack(this, p, C, P);
      forall q | q in P ensures F.KnownParticipation(q, C) {
        assert old(F.KnownParticipation(q, C));
      }
    }

    method DelistHere(p: Participation, asPrimary: bool, ghost P: set<Participation>)
      requires Coherent(P) && p in P && p.contribution == Some(this) && HasAuthor(p)
      requires if asPrimary then p in primary else p in coAuthors
      modifies this`authors, this`primary, this`coAuthors, p`contribution
      ensures Coherent(P) && authors == old(authors) - {p.id.value} && p.contribution == None
      ensures primary == if asPrimary then WithoutFirst(old(primary), p) else old(primary)
      ensures coAuthors == if asPrimary then old(coAuthors) else WithoutFirst(old(coAuthors), p)
      ensures old(Numbered(P)) ==> Numbered(P) && IdFree(p, P) && p.id.value < next
    {
      ghost var id := p.id.value;
      forall i | i in authors && i != id ensures authors[i] != p {
        assert AuthorKnown(P, i);
      }
      ValuesRemoved(authors, id, p);
      WithoutBag(if asPrimary then primary else coAuthors, p);
      if asPrimary {
        primary := WithoutFirst(primary, p);
      } else {
        coAuthors := WithoutFirst(coAuthors, p);
      }
      RemoveAuthor(p);
      forall i | i in authors ensures AuthorKnown(P, i) {
        assert old(AuthorKnown(P, i));
      }
    }

    /**
      An author or presenter dragged from one list to another. Between the two
      lists of authors it is removed and added again, under the same id. Out of
      the presenters nothing is removed, and that goes wrong exactly for one who
      is an author already.
     */
    method Drag(p: Participation, from: Place, to: Place, at: Option<nat>, ghost F: Conference,
                ghost C: set<Contribution>, ghost P: set<Participation>)
      requires F.Valid(C, P) && this in C && Numbered(P)
      requires if from == PrimaryAuthors then p in primary else if from == CoAuthors then p in coAuthors
               else p in P && p.contribution == Some(this)
      modifies this`authors, this`next, this`primary, this`coAuthors, p`contribution, p`id, F`idx
      ensures F.Valid(C, P) <==> from != Presenters || to == Presenters || !old(HasAuthor(p))
      ensures Exact(F.idx, Conference.Keys(P), Conference.ListedAmong(P, C)) <==> F.Valid(C, P) || !Shown()
      ensures F.Valid(C, P) ==> Numbered(P)
      ensures p.contribution == Some(this) && p.id == old(p.id) && (to == Presenters ==> authors == old(authors))
      ensures to != Presenters ==> p.id.Some? && authors == old(authors)[p.id.value := p]
      ensures primary == Dragged(PrimaryAuthors, from, to, old(primary), at, p)
      ensures coAuthors == Dragged(CoAuthors, from, to, old(coAuthors), at, p)
    {
      if from == Presenters {
        KnowsId(p, F, C, P);
        if to != Presenters && !HasAuthor(p) {
          NumberedIsFree(p, F, C, P);
        }
      } else {
        InLists(p, F, C, P);
      }
      if to == Presenters {
        return;
      }
      if from != Presenters {
        Remove(p, from == PrimaryAuthors, F, C, P);
      }
      Add(p, to == PrimaryAuthors, at, F, C, P);
    }

    lemma KnowsId(p: Participation, F: Conference, C: set<Contribution>, P: set<Participation>)
      requires F.InOrder(C, P) && p in P && p.contribution == Some(this)
      ensures OwnsId(p)
    {
      assert F.KnownParticipation(p, C);
    }

    /** `withdraw`: takes the authors out of the index, or puts them back. */
    method Withdraw(ghost F: Conference, ghost C: set<Contribution>, ghost P: set<Participation>) returns (ok: bool)
      requires F.Valid(C, P) && this in C
      modifies this`withdrawn, F`idx
      ensures F.Valid(C, P)
      ensures ok <==> !old(withdrawn) || conference.Some? || authors == map[]
      ensures withdrawn == if ok then !old(withdrawn) else old(withdrawn)
    {
      assert F.KnownContribution(this, P);
      if withdrawn && conference == None && authors != map[] {
        // there is no conference to ask for its index
        return false;
      }
      ok := true;
      if conference.Some? {
        FlipIndexed(F, C, P);
      } else {
        Flip(F, C, P);
      }
    }

    method FlipIndexed(ghost F: Conference, ghost C: set<Contribution>, ghost P: set<Participation>)
      requires F.Valid(C, P) && this in C && conference == Some(F)
      modifies this`withdrawn, F`idx
      ensures F.Valid(C, P) && withdrawn == !old(withdrawn)
    {
      UpdateIndex(F, C, P);
      Flip(F, C, P);
    }

    /** The authors listed once this contribution, which is in the conference, changes sides. */
    ghost function Flipped(C: set<Contribution>, P: set<Participation>): set<Participation>
      reads P`contribution, P`id, C`conference, C`authors, C`withdrawn, this`authors, this`withdrawn
    {
      if withdrawn then Conference.ListedAmong(P, C) + authors.Values else Conference.ListedAmong(P, C) - authors.Values
    }

    method UpdateIndex(ghost F: Conference, ghost C: set<Contribution>, ghost P: set<Participation>)
      requires F.Valid(C, P) && this in C && conference == Some(F)
      modifies F`idx
      ensures Exact(F.idx, Conference.Keys(P), Flipped(C, P))
    {
      if withdrawn {
        conference.value.IndexAll(this, C, P);
      } else {
        conference.value.UnindexAll(this, C, P);
      }
    }

    method Flip(ghost F: Conference, ghost C: set<Contribution>, ghost P: set<Participation>)
      requires F.InOrder(C, P) && this in C && (withdrawn && conference == None ==> authors == map[])
      modifies this`withdrawn
      ensures F.InOrder(C, P) && withdrawn == !old(withdrawn)
      ensures Conference.ListedAmong(P, C) ==
                if conference == None then old(Conference.ListedAmong(P, C)) else old(Flipped(C, P))
    {
      assert F.KnownContribution(this, P);
      AuthorsAreKnown(P);
      withdrawn := !withdrawn;
      forall c | c in C ensures F.KnownContribution(c, P) {
        assert old(F.KnownContribution(c, P));
      }
      forall q | q in P ensures F.KnownParticipation(q, C) {
        assert old(F.KnownParticipation(q, C));
      }
    }

    lemma AuthorsAreKnown(P: set<Participation>)
      requires Coherent(P)
      ensures forall p :: p in authors.Values ==> p in P && p.contribution == Some(this) && HasAuthor(p)
    {
      forall p | p in authors.Values ensures p in P && p.contribution == Some(this) && HasAuthor(p) {
        var id :| id in authors && authors[id] == p;
        assert AuthorKnown(P, id);
      }
    }
  }

  class Conference {
    var contributions: set<Contribution>
    var idx: Index<Participation>           // _authorIdx

    /** A conference starts with an empty index, which is exact. */
    constructor ()
      ensures contributions == {} && idx == map[] && Valid({}, {})
    {
      contributions, idx := {}, map[];
      new;
      EmptyIsExact(Keys({}));
      assert ListedAmong({}, {}) == {};
    }

    static ghost function Keys(P: set<Participation>): map<Participation, string>
      reads P`firstName, P`familyName, P`email
    {
      map p | p in P :: p.KeyIn(P)
    }

    static ghost function ListedAmong(P: set<Participation>, C: set<Contribution>): set<Participation>
      reads P`contribution, P`id, C`conference, C`authors, C`withdrawn
    {
      set p | p in P && p.contribution.Some? && p.contribution.value in C && p.Listed()
    }

    ghost predicate KnownContribution(c: Contribution, P: set<Participation>)
      reads this`contributions, c, P`id, P`contribution
    {
      c.Coherent(P) && c.conference == if c in contributions then Some(this) else None
    }

    ghost predicate KnownParticipation(p: Participation, C: set<Contribution>)
      reads p`contribution, p`id, C`authors
    {
      p.contribution.Some? ==> p.contribution.value in C && p.contribution.value.OwnsId(p)
    }

    /** Everything but the index. */
    ghost predicate InOrder(C: set<Contribution>, P: set<Participation>)
      reads this`contributions, C, P`id, P`contribution
    {
      && contributions <= C
      && (forall c {:trigger KnownContribution(c, P)} :: c in C ==> KnownContribution(c, P))
      && (forall p {:trigger KnownParticipation(p, C)} :: p in P ==> KnownParticipation(p, C))
    }

    /** The index holds exactly the authors of the contributions that are not withdrawn. */
    ghost predicate Valid(C: set<Contribution>, P: set<Participation>)
      reads this, C, P
    {
      InOrder(C, P) && Exact(idx, Keys(P), ListedAmong(P, C))
    }

    /** The other contributions do not look at `p`. */
    lemma SetAside(x: Contribution, p: Participation, C: set<Contribution>, P: set<Participation>)
      requires InOrder(C, P) && p in P && (p.contribution == None || p.contribution == Some(x))
      ensures forall c {:trigger KnownContribution(c, P - {p})} :: c in C && c != x ==> KnownContribution(c, P - {p})
    {
      forall c | c in C && c != x ensures KnownContribution(c, P - {p}) {
        assert KnownContribution(c, P);
        forall i | i in c.authors ensures c.AuthorKnown(P - {p}, i) {
          assert c.AuthorKnown(P, i);
        }
      }
    }

    lemma BringBack(x: Contribution, p: Participation, C: set<Contribution>, P: set<Participation>)
      requires KnownContribution(x, P)
      requires forall c {:trigger KnownContribution(c, P - {p})} :: c in C && c != x ==> KnownContribution(c, P - {p})
      ensures forall c {:trigger KnownContribution(c, P)} :: c in C ==> KnownContribution(c, P)
    {
      forall c | c in C ensures KnownContribution(c, P) {
        if c != x {
          assert KnownContribution(c, P - {p});
          forall i | i in c.authors ensures c.AuthorKnown(P, i) {
            assert c.AuthorKnown(P - {p}, i);
          }
        }
      }
    }

    lemma KnowsParticipation(p: Participation, C: set<Contribution>, P: set<Participation>)
      requires InOrder(C, P) && p in P
      ensures p.contribution.Some? ==>
                && p.contribution.value in C && p.contribution.value.OwnsId(p)
                && (p.contribution.value.conference == None || p.contribution.value.conference == Some(this))
    {
      assert KnownParticipation(p, C);
      if p.contribution.Some? {
        assert KnownContribution(p.contribution.value, P);
      }
    }

    /** Who is in which bucket: each author of a contribution that is not withdrawn, once, under its key. */
    lemma IndexHolds(p: Participation, k: string, C: set<Contribution>, P: set<Participation>)
      requires Valid(C, P) && p in P
      ensures k in idx ==> idx[k] != [] && multiset(idx[k])[p] <= 1
      ensures k in idx && p in idx[k] <==>
                && k == AuthorIndex.Key(p.familyName, p.firstName, p.email)
                && p.contribution.Some? && p.contribution.value in contributions && !p.contribution.value.withdrawn
                && p.id.Some? && p.id.value in p.contribution.value.authors
                && p.contribution.value.authors[p.id.value] == p
    {
      KnowsParticipation(p, C, P);
      assert p in ListedAmong(P, C) <==>
               p.contribution.Some? && p.contribution.value in contributions && p.Listed() by {
        assert p.contribution.Some? && p.contribution.value in C ==> KnownContribution(p.contribution.value, P);
      }
      BucketHolds(idx, Keys(P), ListedAmong(P, C), p, k);
    }

    /** Two people in the index share a bucket if and only if names and e-mail are the same but for case. */
    lemma SharedBucket(p: Participation, k: string, q: Participation, l: string, C: set<Contribution>,
                       P: set<Participation>)
      requires Valid(C, P) && p in P && q in P && k in idx && p in idx[k] && l in idx && q in idx[l]
      requires p.familyName != "" && NoBlank(p.familyName) && NoBlank(p.firstName) && NoBlank(p.email)
      requires q.familyName != "" && NoBlank(q.familyName) && NoBlank(q.firstName) && NoBlank(q.email)
      ensures k == l <==>
                && SameButCase(p.familyName, q.familyName)
                && SameButCase(p.firstName, q.firstName)
                && SameButCase(p.email, q.email)
    {
      IndexHolds(p, k, C, P);
      IndexHolds(q, l, C, P);
      KeysEqual(p.familyName, p.firstName, p.email, q.familyName, q.firstName, q.email);
    }

    // ------------------------------------------------------------ index

    method Index(p: Participation)
      modifies this`idx
      ensures idx == Indexed(old(idx), p.Key(), p)
    {
      var key := p.Key();
      if key !in idx {
        idx := idx[key := []];
      }
      idx := idx[key := idx[key] + [p]];
      assert [] + [p] == [p];
      assert key !in old(idx) ==> idx == old(idx)[key := [p]];
    }

    method Unindex(p: Participation)
      modifies this`idx
      ensures idx == Unindexed(old(idx), p.Key(), p)
    {
      var key := p.Key();
      if key in idx && p in idx[key] {
        var l := WithoutFirst(idx[key], p);
        idx := idx[key := l];
        if l == [] {
          idx := idx - {key};
          assert old(idx)[key := l] - {key} == old(idx) - {key};
        }
      }
    }

    /** `indexAuthor`. */
    method IndexAuthor(p: Participation)
      requires p.contribution.Some?
      modifies this`idx
      ensures var c := p.contribution.value;
              idx == if p.id.Some? && p.id.value in c.authors && !c.withdrawn then Indexed(old(idx), p.Key(),
                                                                                           p) else old(idx)
    {
      var c := p.contribution.value;
      if p.id.Some? && p.id.value in c.authors && !c.withdrawn {
        Index(p);
      }
    }

    /** `unindexAuthor`. */
    method UnindexAuthor(p: Participation)
      requires p.contribution.Some?
      modifies this`idx
      ensures var c := p.contribution.value;
              idx == if p.id.Some? && p.id.value in c.authors then Unindexed(old(idx), p.Key(), p) else old(idx)
    {
      var c := p.contribution.value;
      if p.id.Some? && p.id.value in c.authors {
        Unindex(p);
      }
    }

    // ------------------------------------------------ whole contributions

    /** The loop in `withdraw` that puts the authors back: they are not in the index yet. */
    method IndexAll(c: Contribution, ghost C: set<Contribution>, ghost P: set<Participation>)
      requires Valid(C, P) && c in C && c.withdrawn
      modifies this`idx
      ensures Exact(idx, Keys(P), ListedAmong(P, C) + c.authors.Values)
    {
      assert KnownContribution(c, P);
      c.AuthorsAreKnown(P);
      ghost var keys: map<Participation, string>, listed, done := Keys(P), ListedAmong(P, C), {};
      assert listed + done == listed;
      var rest := c.authors.Values;
      while rest != {}
        invariant rest <= c.authors.Values && done == c.authors.Values - rest
        invariant Exact(idx, keys, listed + done)
        decreases rest
      {
        var auth :| auth in rest;
        IndexingKeepsExact(idx, keys, listed + done, auth);
        Index(auth);
        done, rest := done + {auth}, rest - {auth};
        assert listed + (done - {auth}) + {auth} == listed + done;
      }
      assert done == c.authors.Values;
    }

    /** The loop in `withdraw` that takes them out. */
    method UnindexAll(c: Contribution, ghost C: set<Contribution>, ghost P: set<Participation>)
      requires Valid(C, P) && c in C
      modifies this`idx
      ensures Exact(idx, Keys(P), ListedAmong(P, C) - c.authors.Values)
    {
      assert KnownContribution(c, P);
      c.AuthorsAreKnown(P);
      ghost var keys: map<Participation, string>, listed, done := Keys(P), ListedAmong(P, C), {};
      assert listed - done == listed;
      var rest := c.authors.Values;
      while rest != {}
        invariant rest <= c.authors.Values && done == c.authors.Values - rest
        invariant Exact(idx, keys, listed - done)
        decreases rest
      {
        var auth :| auth in rest;
        UnindexingKeepsExact(idx, keys, listed - done, auth);
        Unindex(auth);
        done, rest := done + {auth}, rest - {auth};
        assert listed - (done - {auth}) - {auth} == listed - done;
      }
      assert done == c.authors.Values;
    }

    /** New objects, not linked to anything yet, change nothing. */
    method NewContribution(ghost C: set<Contribution>, ghost P: set<Participation>) returns (c: Contribution)
      requires Valid(C, P)
      ensures fresh(c) && c.conference == None && c.authors == map[] && !c.withdrawn && c.Numbered(P)
      ensures c.primary == [] && c.coAuthors == []
      ensures Valid(C + {c}, P)
    {
      c := new Contribution();
      forall d | d in C + {c} ensures KnownContribution(d, P) {
        assert d != c ==> old(KnownContribution(d, P));
      }
      forall q | q in P ensures KnownParticipation(q, C + {c}) && q.contribution != Some(c) {
        assert old(KnownParticipation(q, C));
      }
      assert ListedAmong(P, C + {c}) == ListedAmong(P, C);
    }

    method NewParticipation(firstName: string, familyName: string, email: string, ghost C: set<Contribution>,
                            ghost P: set<Participation>)
      returns (p: Participation)
      requires Valid(C, P)
      ensures fresh(p) && p.firstName == firstName && p.familyName == familyName && p.email == email
      ensures p.contribution == None && p.id == None && Valid(C, P + {p})
      ensures forall c :: c in C ==> (c.Numbered(P + {p}) <==> old(c.Numbered(P)))
    {
      ghost var keys: map<Participation, string>, listed := Keys(P), ListedAmong(P, C);
      p := MakeParticipation(firstName, familyName, email, C, P);
      MoreKeysKeepExact(idx, keys, listed, p, p.Key());
      OneMoreInOrder(p, C, P);
    }

    static method MakeParticipation(firstName: string, familyName: string, email: string, ghost C: set<Contribution>,
                                    ghost P: set<Participation>)
      returns (p: Participation)
      ensures fresh(p) && p.firstName == firstName && p.familyName == familyName && p.email == email
      ensures p.contribution == None && p.id == None
      ensures Keys(P + {p}) == old(Keys(P))[p := p.Key()] && ListedAmong(P + {p}, C) == old(ListedAmong(P, C))
    {
      ghost var keys: map<Participation, string> := Keys(P);
      p := new Participation(firstName, familyName, email);
      assert Keys(P + {p}) == keys[p := p.Key()];
    }

    lemma OneMoreInOrder(p: Participation, C: set<Contribution>, P: set<Participation>)
      requires InOrder(C, P) && p.contribution == None
      ensures InOrder(C, P + {p})
    {
      forall c | c in C ensures KnownContribution(c, P + {p}) {
        assert KnownContribution(c, P);
        forall i | i in c.authors ensures c.AuthorKnown(P + {p}, i) {
          assert c.AuthorKnown(P, i);
        }
      }
      forall q | q in P + {p} ensures KnownParticipation(q, C) {
        assert q != p ==> KnownParticipation(q, C);
      }
    }

    /** `addContribution`; a withdrawn contribution is refused. */
    method AddContribution(c: Contribution, ghost C: set<Contribution>, ghost P: set<Participation>) returns (ok: bool)
      requires Valid(C, P) && c in C
      modifies this, c`conference
      ensures Valid(C, P) && (ok <==> c in old(contributions) || !c.withdrawn)
      ensures contributions == if ok then old(contributions) + {c} else old(contributions)
    {
      assert KnownContribution(c, P);
      if c in contributions {
        return true;
      }
      if c.withdrawn {
        return false;
      }
      Include(c, C, P);
      IndexAuthors(c, ListedAmong(P, C) - c.authors.Values, C, P);
      assert ListedAmong(P, C) - c.authors.Values + c.authors.Values == ListedAmong(P, C);
      ok := true;
    }

    method Include(c: Contribution, ghost C: set<Contribution>, ghost P: set<Participation>)
      requires InOrder(C, P) && c in C && c !in contributions && !c.withdrawn
      modifies this`contributions, c`conference
      ensures InOrder(C, P) && c.conference == Some(this) && contributions == old(contributions) + {c}
      ensures c.authors.Values <= ListedAmong(P, C) && ListedAmong(P, C) - c.authors.Values == old(ListedAmong(P, C))
    {
      assert KnownContribution(c, P);
      c.AuthorsAreKnown(P);
      c.conference := Some(this);
      contributions := contributions + {c};
      forall d | d in C ensures KnownContribution(d, P) {
        assert old(KnownContribution(d, P));
      }
      forall q | q in P ensures KnownParticipation(q, C) {
        assert old(KnownParticipation(q, C));
      }
    }

    /** The authors of a contribution that is not in the index, one by one through `indexAuthor`. */
    method IndexAuthors(c: Contribution, ghost listed: set<Participation>, ghost C: set<Contribution>,
                        ghost P: set<Participation>)
      requires InOrder(C, P) && c in C && !c.withdrawn && Exact(idx, Keys(P), listed) && listed !! c.authors.Values
      modifies this`idx
      ensures Exact(idx, Keys(P), listed + c.authors.Values)
    {
      assert KnownContribution(c, P);
      c.AuthorsAreKnown(P);
      ghost var keys: map<Participation, string>, done := Keys(P), {};
      assert listed + done == listed;
      var rest := c.authors.Values;
      while rest != {}
        invariant rest <= c.authors.Values && done == c.authors.Values - rest
        invariant Exact(idx, keys, listed + done)
        decreases rest
      {
        var auth :| auth in rest;
        IndexingKeepsExact(idx, keys, listed + done, auth);
        IndexAuthor(auth);
        done, rest := done + {auth}, rest - {auth};
        assert listed + (done - {auth}) + {auth} == listed + done;
      }
      assert done == c.authors.Values;
    }

    /** `removeContribution`: every author is removed first. */
    method RemoveContribution(c: Contribution, ghost C: set<Contribution>, ghost P: set<Participation>)
      requires Valid(C, P) && c in C
      modifies this, c, P`contribution
      ensures Valid(C, P) && contributions == old(contributions) - {c}
      ensures c in old(contributions) ==>
                c.authors == map[] && c.primary == c.coAuthors == [] && c.conference == None && !c.withdrawn
      ensures c !in old(contributions) ==> idx == old(idx) && c.authors == old(c.authors)
    {
      if c !in contributions {
        return;
      }
      RemoveAllPrimary(c, C, P);
      RemoveAllCo(c, C, P);
      NoAuthorsLeft(c, C, P);
      Exclude(c, C, P);
    }

    method RemoveAllPrimary(c: Contribution, ghost C: set<Contribution>, ghost P: set<Participation>)
      requires Valid(C, P) && c in contributions
      modifies this`idx, c`authors, c`primary, c`coAuthors, P`contribution
      ensures Valid(C, P) && c.primary == []
    {
      while c.primary != []
        invariant Valid(C, P)
        decreases |c.primary|
      {
        c.InLists(c.primary[0], this, C, P);
        c.RemovePrimaryAuthor(c.primary[0], this, C, P);
      }
    }

    method RemoveAllCo(c: Contribution, ghost C: set<Contribution>, ghost P: set<Participation>)
      requires Valid(C, P) && c in contributions && c.primary == []
      modifies this`idx, c`authors, c`primary, c`coAuthors, P`contribution
      ensures Valid(C, P) && c.primary == [] && c.coAuthors == []
    {
      while c.coAuthors != []
        invariant Valid(C, P) && c.primary == []
        decreases |c.coAuthors|
      {
        c.InLists(c.coAuthors[0], this, C, P);
        c.RemoveCoAuthor(c.coAuthors[0], this, C, P);
      }
    }

    lemma NoAuthorsLeft(c: Contribution, C: set<Contribution>, P: set<Participation>)
      requires InOrder(C, P) && c in contributions && c.primary == [] && c.coAuthors == []
      ensures c.authors == map[]
    {
      assert KnownContribution(c, P);
      assert multiset(c.primary) + multiset(c.coAuthors) == multiset{};
      forall id ensures id !in c.authors {
        if id in c.authors {
          ValueCounted(c.authors, id);
        }
      }
    }

    method Exclude(c: Contribution, ghost C: set<Contribution>, ghost P: set<Participation>)
      requires Valid(C, P) && c in contributions && c.authors == map[]
      modifies this`contributions, c`conference, c`withdrawn
      ensures Valid(C, P) && contributions == old(contributions) - {c} && c.conference == None && !c.withdrawn
    {
      ghost var listed := ListedAmong(P, C);
      Drop(c, C, P);
      assert ListedAmong(P, C) == listed;
    }

    method Drop(c: Contribution, ghost C: set<Contribution>, ghost P: set<Participation>)
      requires InOrder(C, P) && c in contributions && c.authors == map[]
      modifies this`contributions, c`conference, c`withdrawn
      ensures InOrder(C, P) && contributions == old(contributions) - {c} && c.conference == None && !c.withdrawn
      ensures ListedAmong(P, C) == old(ListedAmong(P, C))
    {
      contributions := contributions - {c};
      c.conference, c.withdrawn := None, false;
      forall d | d in C ensures KnownContribution(d, P) {
        assert old(KnownContribution(d, P));
      }
      forall q | q in P ensures KnownParticipation(q, C) {
        assert old(KnownParticipation(q, C));
      }
    }

    /** `_rebuildAuthorIndex`: what it builds has the same buckets, with the same authors, as the index kept so far. */
    method RebuildAuthorIndex(ghost C: set<Contribution>, ghost P: set<Participation>)
      requires InOrder(C, P)
      modifies this`idx
      ensures Valid(C, P)
      ensures old(Valid(C, P)) ==>
                && idx.Keys == old(idx).Keys
                && forall k :: k in idx ==> idx[k] != [] && multiset(idx[k]) == multiset(old(idx)[k])
    {
      ghost var before := idx;
      IndexEverything(C, P);
      AuthorsOfAll(C, P);
      if old(Valid(C, P)) {
        ExactIsUnique(idx, before, Keys(P), ListedAmong(P, C));
      }
    }

    method IndexEverything(ghost C: set<Contribution>, ghost P: set<Participation>)
      requires InOrder(C, P)
      modifies this`idx
      ensures Exact(idx, Keys(P), AuthorsOf(contributions, P))
    {
      idx := map[];
      EmptyIsExact(Keys(P));
      var rest := contributions;
      ghost var done: set<Contribution> := {};
      assert AuthorsOf(done, P) == {};
      while rest != {}
        invariant rest <= contributions && done == contributions - rest && Exact(idx, Keys(P), AuthorsOf(done, P))
        decreases rest
      {
        var c :| c in rest;
        RebuildFrom(c, done, C, P);
        done, rest := done + {c}, rest - {c};
      }
      assert done == contributions;
    }

    static ghost function AuthorsOf(some: set<Contribution>, P: set<Participation>): set<Participation>
      reads P`contribution, P`id, some`conference, some`authors, some`withdrawn
    {
      ListedAmong(P, some)
    }

    lemma AuthorsOfAll(C: set<Contribution>, P: set<Participation>)
      requires InOrder(C, P)
      ensures AuthorsOf(contributions, P) == ListedAmong(P, C)
    {
      forall p | p in ListedAmong(P, C) ensures p in ListedAmong(P, contributions) {
        assert KnownContribution(p.contribution.value, P);
      }
    }

    method RebuildFrom(c: Contribution, ghost done: set<Contribution>, ghost C: set<Contribution>,
                       ghost P: set<Participation>)
      requires InOrder(C, P) && c in contributions && c !in done && done <= contributions
      requires Exact(idx, Keys(P), AuthorsOf(done, P))
      modifies this`idx
      ensures Exact(idx, Keys(P), AuthorsOf(done + {c}, P))
    {
      assert KnownContribution(c, P);
      c.AuthorsAreKnown(P);
      if !c.withdrawn {
        IndexAuthors(c, AuthorsOf(done, P), C, P);
      }
      assert AuthorsOf(done + {c}, P) == AuthorsOf(done, P) + (if c.withdrawn then {} else c.authors.Values);
      assert c.withdrawn ==> AuthorsOf(done + {c}, P) == AuthorsOf(done, P);
    }
  }

  /**
    Three requests: a new presenter is dragged to the primary authors, then, out
    of the presenters again, to the co-authors. The index holds it twice.
   */
  method DraggedTwice(firstName: string, familyName: string, email: string)
    returns (F: Conference, c: Contribution, p: Participation)
    ensures c.conference == Some(F) && p.contribution == Some(c)
    ensures c.primary == [p] && c.coAuthors == [p]
    ensures !Exact(F.idx, Conference.Keys({p}), Conference.ListedAmong({p}, {c}))
  {
    F, c, p := OnePresenter(firstName, familyName, email);
    c.Drag(p, Presenters, PrimaryAuthors, None, F, {c}, {p});
    c.Drag(p, Presenters, CoAuthors, None, F, {c}, {p});
  }

  method OnePresenter(firstName: string, familyName: string, email: string)
    returns (F: Conference, c: Contribution, p: Participation)
    ensures fresh(F) && fresh(c) && fresh(p) && F.Valid({c}, {p}) && c.Numbered({p})
    ensures c.conference == Some(F) && !c.withdrawn && c.authors == map[] && c.primary == [] && c.coAuthors == []
    ensures p.contribution == Some(c) && p.id.Some?
  {
    F, c := OneContribution();
    p := F.NewParticipation(firstName, familyName, email, {c}, {});
    assert {} + {p} == {p};
    c.NewSpeaker(p, F, {c}, {p});
  }

  method OneContribution() returns (F: Conference, c: Contribution)
    ensures fresh(F) && fresh(c) && F.Valid({c}, {}) && c.Numbered({})
    ensures c.conference == Some(F) && !c.withdrawn && c.authors == map[] && c.primary == [] && c.coAuthors == []
  {
    F := new Conference();
    c := F.NewContribution({}, {});
    assert {} + {c} == {c};
    var _ := F.AddContribution(c, {c}, {});
    assert F.KnownContribution(c, {});
  }
}
