/**
  Contributions and tracks: each side of the link calls the other, whichever
  is told first, until both agree.
 */
module Tracks {
  import opened Common

  class Contribution {
    const id: nat
    var track: Option<Track>

    constructor (id: nat)
      ensures this.id == id && track == None
    {
      this.id := id;
      track := None;
    }

    /** One if `t` lists this contribution, under its id. */
    function In(t: Option<Track>): nat
      reads (if t.Some? then {t.value} else {})`contributions
    {
      if t.Some? && id in t.value.contributions then 1 else 0
    }

    /** Links still to be changed before this contribution is in `newTrack` only. */
    function LinksToChange(newTrack: Option<Track>): nat
      reads this`track, (if track.Some? then {track.value} else {})`contributions
      reads (if newTrack.Some? then {newTrack.value} else {})`contributions
    {
      if track == newTrack then 0 else In(track) + (if newTrack.Some? then 1 - In(newTrack) else 0)
    }

    /** `setTrack`. */
    method SetTrack(newTrack: Option<Track>)
      modifies this`track, (if track.Some? then {track.value} else {})`contributions
      modifies (if newTrack.Some? then {newTrack.value} else {})`contributions
      ensures track == newTrack
      ensures old(track).Some? && old(track) != newTrack ==>
                old(track).value.contributions == old(track.value.contributions) - {id}
      ensures newTrack.Some? ==>
                newTrack.value.contributions ==
                if old(track) == newTrack || id in old(newTrack.value.contributions)
                then old(newTrack.value.contributions)
                else old(newTrack.value.contributions)[id := this]
      decreases LinksToChange(newTrack), 1
    {
      if newTrack == track {
        return;
      }
      if track.Some? {
        track.value.RemoveContribution(this);
      }
      track := newTrack;
      if track.Some? {
        track.value.AddContribution(this);
      }
    }
  }

  class Track {
    var contributions: map<nat, Contribution>

    constructor ()
      ensures contributions == map[]
    {
      contributions := map[];
    }

    /** `addContribution`. */
    method AddContribution(c: Contribution)
      modifies this`contributions, c`track, (if c.track.Some? then {c.track.value} else {})`contributions
      ensures if c.id in old(contributions) then contributions == old(contributions) && c.track == old(c.track)
              else contributions == old(contributions)[c.id := c] && c.track == Some(this)
      ensures old(c.track).Some? && old(c.track) != Some(this) ==>
                old(c.track).value.contributions ==
                if c.id in old(contributions) then old(c.track.value.contributions)
                else old(c.track.value.contributions) - {c.id}
      decreases (if c.id in contributions then 0 else 1) + (if c.track == Some(this) then 0 else c.In(c.track)), 0
    {
      if c.id in contributions {
        return;
      }
      contributions := contributions[c.id := c];
      c.SetTrack(Some(this));
    }

    /** `removeContribution`. */
    method RemoveContribution(c: Contribution)
      modifies this`contributions, c`track, (if c.track.Some? then {c.track.value} else {})`contributions
      ensures contributions == old(contributions) - {c.id}
      ensures c.track == if c.id in old(contributions) then None else old(c.track)
      ensures old(c.track).Some? && old(c.track) != Some(this) ==>
                old(c.track).value.contributions ==
                if c.id in old(contributions) then old(c.track.value.contributions) - {c.id}
                else old(c.track.value.contributions)
      decreases (if c.id in contributions then 1 else 0) + (if c.track == Some(this) then 0 else c.In(c.track)), 0
    {
      if c.id !in contributions {
        return;
      }
      contributions := contributions - {c.id};
      c.SetTrack(None);
    }
  }

  /** A track lists a contribution, under its id, exactly when it is the contribution's track. */
  ghost predicate Agree(t: Track, c: Contribution)
    reads t`contributions, c`track
  {
    && (c.id in t.contributions <==> c.track == Some(t))
    && (c.id in t.contributions ==> t.contributions[c.id] == c)
  }

  /** A track lists only contributions in `K`, each under its own id. */
  ghost predicate ListsOnly(t: Track, K: set<Contribution>)
    reads t`contributions
  {
    forall i :: i in t.contributions ==> t.contributions[i] in K && t.contributions[i].id == i
  }

  ghost predicate Coherent(T: set<Track>, K: set<Contribution>)
    reads T`contributions, K`track
  {
    && (forall c :: c in K && c.track.Some? ==> c.track.value in T)
    && (forall t :: t in T ==> ListsOnly(t, K))
    && (forall t, c {:trigger Agree(t, c)} :: t in T && c in K ==> Agree(t, c))
  }

  ghost predicate IdsDiffer(K: set<Contribution>) {
    forall c, d :: c in K && d in K && c.id == d.id ==> c == d
  }

  /** A contribution is in at most one track. */
  lemma AtMostOneTrack(T: set<Track>, K: set<Contribution>, c: Contribution, t: Track, u: Track)
    requires Coherent(T, K) && c in K && t in T && u in T && c.id in t.contributions && c.id in u.contributions
    ensures t == u
  {
    assert Agree(t, c) && Agree(u, c);
  }

  /** A conference begins without tracks and contributions; a track is made without contributions. */
  method NewTrack(ghost T: set<Track>, ghost K: set<Contribution>) returns (t: Track)
    requires Coherent(T, K)
    ensures fresh(t) && Coherent({}, {}) && Coherent(T + {t}, K)
  {
    t := new Track();
  }

  /** A contribution is made without a track, under an id of its own. */
  method NewContribution(id: nat, ghost T: set<Track>, ghost K: set<Contribution>) returns (c: Contribution)
    requires Coherent(T, K) && IdsDiffer(K) && forall d :: d in K ==> d.id != id
    ensures fresh(c) && c.id == id && c.track == None && Coherent(T, K + {c}) && IdsDiffer(K + {c})
  {
    c := new Contribution(id);
    forall t | t in T ensures Agree(t, c) && ListsOnly(t, K + {c}) {
      assert ListsOnly(t, K);
    }
    forall t, d | t in T && d in K ensures Agree(t, d) {
      assert old(Agree(t, d));
    }
  }

  /** Started at the contribution. */
  method PutOnTrack(c: Contribution, newTrack: Option<Track>, ghost T: set<Track>, ghost K: set<Contribution>)
    requires Coherent(T, K) && IdsDiffer(K) && c in K && (newTrack.Some? ==> newTrack.value in T)
    modifies c`track, T`contributions
    ensures Coherent(T, K) && c.track == newTrack
  {
    assert newTrack.Some? ==> Agree(newTrack.value, c);
    assert c.track.Some? ==> Agree(c.track.value, c);
    c.SetTrack(newTrack);
    forall t, d | t in T && d in K ensures Agree(t, d) {
      assert old(Agree(t, d)) && old(Agree(t, c));
    }
  }

  /** Started at the track that takes the contribution. */
  method TakeOnTrack(t: Track, c: Contribution, ghost T: set<Track>, ghost K: set<Contribution>)
    requires Coherent(T, K) && IdsDiffer(K) && c in K && t in T
    modifies c`track, T`contributions
    ensures Coherent(T, K) && c.track == Some(t)
  {
    assert Agree(t, c);
    assert c.track.Some? ==> Agree(c.track.value, c);
    t.AddContribution(c);
    forall u, d | u in T && d in K ensures Agree(u, d) {
      assert old(Agree(u, d)) && old(Agree(u, c));
    }
  }

  /** Started at the track that gives the contribution up. */
  method DropFromTrack(t: Track, c: Contribution, ghost T: set<Track>, ghost K: set<Contribution>)
    requires Coherent(T, K) && IdsDiffer(K) && c in K && t in T
    modifies c`track, T`contributions
    ensures Coherent(T, K) && c.track == (if old(c.track) == Some(t) then None else old(c.track))
    ensures forall u :: u in T && u != t ==> u.contributions == old(u.contributions)
  {
    assert Agree(t, c);
    t.RemoveContribution(c);
    forall u, d | u in T && d in K ensures Agree(u, d) {
      assert old(Agree(u, d)) && old(Agree(u, c));
    }
  }
}
