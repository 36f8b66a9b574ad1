/**
  The author index as a value: buckets of authors by key, and what it means
  for it to hold exactly the authors it should.
 */
module AuthorIndex {
  import opened Common

  type Index<P> = map<string, seq<P>>

  // ---------------------------------------------------------------- keys

  function LowerChar(c: char): char {
    if 'A' <= c <= 'Z' then 'a' + (c - 'A') else c
  }

  function Lower(s: string): string {
    if s == [] then [] else [LowerChar(s[0])] + Lower(s[1..])
  }

  predicate Blank(c: char) {
    c == ' ' || c == '\t' || c == '\n' || c == '\r' || c == '\U{0B}' || c == '\U{0C}'
  }

  function StripLeft(s: string): string {
    if s != [] && Blank(s[0]) then StripLeft(s[1..]) else s
  }

  function StripRight(s: string): string {
    if s != [] && Blank(s[|s| - 1]) then StripRight(s[..|s| - 1]) else s
  }

  function Strip(s: string): string {
    StripRight(StripLeft(s))
  }

  /** `_getKey`. */
  function Key(familyName: string, firstName: string, email: string): string {
    Strip(Lower(familyName) + " " + Lower(firstName) + " " + Lower(email))
  }

  // -------------------------------------------------------------- buckets

  /** `index`. */
  function Indexed<P>(idx: Index<P>, k: string, p: P): Index<P> {
    if k in idx then idx[k := idx[k] + [p]] else idx[k := [p]]
  }

  /** `unindex`: the last author of a bucket takes the bucket along. */
  function Unindexed<P(==)>(idx: Index<P>, k: string, p: P): Index<P> {
    if k in idx && p in idx[k] then
      var l := WithoutFirst(idx[k], p);
      if l == [] then idx - {k} else idx[k := l]
    else idx
  }

  /** A newcomer goes to the end of its bucket; one who leaves goes out of it, and so does a bucket left empty. */
  lemma BucketByBucket<P>(idx: Index<P>, k: string, p: P, l: string)
    ensures l == k ==> l in Indexed(idx, k, p) && Indexed(idx, k, p)[l] == (if k in idx then idx[k] else []) + [p]
    ensures l == k && k in idx && p in idx[k] ==>
              if idx[k] == [p] then k !in Unindexed(idx, k, p)
              else k in Unindexed(idx, k, p) && Unindexed(idx, k, p)[k] == WithoutFirst(idx[k], p)
    ensures l != k ==>
              && (l in Indexed(idx, k, p) <==> l in idx) && (l in Unindexed(idx, k, p) <==> l in idx)
              && (l in idx ==> Indexed(idx, k, p)[l] == Unindexed(idx, k, p)[l] == idx[l])
  {
    assert [] + [p] == [p];
    if k in idx && idx[k] != [] {
      assert idx[k] == [idx[k][0]] + idx[k][1..];
    }
  }

  /** Those of `m` with key `k`. */
  ghost function Named<P>(keys: map<P, string>, m: set<P>, k: string): set<P> {
    set p | p in m && p in keys && keys[p] == k
  }

  ghost predicate BucketExact<P>(idx: Index<P>, keys: map<P, string>, m: set<P>, k: string) {
    if k in idx
    then Named(keys, m, k) != {} && multiset(idx[k]) == multiset(Named(keys, m, k))
    else Named(keys, m, k) == {}
  }

  /** The index holds exactly the authors `m`, each once under its key, and no empty bucket. */
  ghost predicate Exact<P>(idx: Index<P>, keys: map<P, string>, m: set<P>) {
    m <= keys.Keys && forall k {:trigger BucketExact(idx, keys, m, k)} :: BucketExact(idx, keys, m, k)
  }

  lemma BucketHolds<P>(idx: Index<P>, keys: map<P, string>, m: set<P>, p: P, k: string)
    requires Exact(idx, keys, m)
    ensures k in idx && p in idx[k] <==> p in m && keys[p] == k
    ensures k in idx ==> idx[k] != [] && multiset(idx[k])[p] <= 1
  {
    assert BucketExact(idx, keys, m, k);
    assert p in m && keys[p] == k <==> p in Named(keys, m, k);
    if k in idx {
      assert p in idx[k] <==> p in multiset(idx[k]);
      NonEmptyBucket(idx[k], Named(keys, m, k));
    }
  }

  lemma EmptyIsExact<P>(keys: map<P, string>)
    ensures Exact(map[], keys, {})
  {
  }

  lemma OtherBucket<P>(idx: Index<P>, idx': Index<P>, keys: map<P, string>, m: set<P>, m': set<P>, k: string)
    requires BucketExact(idx, keys, m, k) && Named(keys, m, k) == Named(keys, m', k)
    requires (k in idx <==> k in idx') && (k in idx ==> idx[k] == idx'[k])
    ensures BucketExact(idx', keys, m', k)
  {
  }

  /** Indexing an author keeps the index exact if, and only if, the author was not there yet. */
  lemma IndexingKeepsExact<P>(idx: Index<P>, keys: map<P, string>, m: set<P>, p: P)
    requires Exact(idx, keys, m) && p in keys
    ensures Exact(Indexed(idx, keys[p], p), keys, m + {p}) <==> p !in m
  {
    var k, idx' := keys[p], Indexed(idx, keys[p], p);
    assert BucketExact(idx, keys, m, k);
    if p in m {
      assert multiset(idx'[k])[p] == 2 by {
        assert p in Named(keys, m, k);
        assert multiset(idx[k])[p] == 1;
      }
      assert !BucketExact(idx', keys, m + {p}, k);
    } else {
      assert Named(keys, m + {p}, k) == Named(keys, m, k) + {p};
      forall l ensures BucketExact(idx', keys, m + {p}, l) {
        assert BucketExact(idx, keys, m, l);
        if l != k {
          assert Named(keys, m + {p}, l) == Named(keys, m, l);
          OtherBucket(idx, idx', keys, m, m + {p}, l);
        }
      }
    }
  }

  /** Unindexing is harmless for an author that is not there. */
  lemma UnindexingKeepsExact<P>(idx: Index<P>, keys: map<P, string>, m: set<P>, p: P)
    requires Exact(idx, keys, m) && p in keys
    ensures Exact(Unindexed(idx, keys[p], p), keys, m - {p})
    ensures p !in m ==> Unindexed(idx, keys[p], p) == idx
  {
    var k, idx' := keys[p], Unindexed(idx, keys[p], p);
    assert BucketExact(idx, keys, m, k);
    assert p in m <==> p in Named(keys, m, k);
    if k in idx {
      assert p in idx[k] <==> p in multiset(idx[k]);
    }
    assert Named(keys, m - {p}, k) == Named(keys, m, k) - {p};
    forall l ensures BucketExact(idx', keys, m - {p}, l) {
      assert BucketExact(idx, keys, m, l);
      if l != k {
        assert Named(keys, m - {p}, l) == Named(keys, m, l);
        OtherBucket(idx, idx', keys, m, m - {p}, l);
      } else if p in m {
        BucketShrinks(idx[k], Named(keys, m, k), p);
      } else {
        assert m - {p} == m;
      }
    }
  }

  lemma BucketShrinks<P>(bucket: seq<P>, named: set<P>, p: P)
    requires multiset(bucket) == multiset(named) && p in named
    ensures multiset(WithoutFirst(bucket, p)) == multiset(named - {p})
    ensures WithoutFirst(bucket, p) == [] <==> named - {p} == {}
  {
    var l := WithoutFirst(bucket, p);
    WithoutBag(bucket, p);
    assert multiset(named - {p}) == multiset(named) - multiset{p};
    if l == [] {
      assert multiset(l) == multiset{};
      forall q ensures q !in named - {p} {
        assert q in named - {p} <==> q in multiset(named - {p});
      }
    } else {
      assert l[0] in multiset(l);
    }
  }

  /** An author who is not in the index can change names freely. */
  lemma RenamingKeepsExact<P>(idx: Index<P>, keys: map<P, string>, m: set<P>, p: P, k: string)
    requires Exact(idx, keys, m) && p !in m
    ensures Exact(idx, keys[p := k], m)
  {
    var keys' := keys[p := k];
    forall l ensures BucketExact(idx, keys', m, l) {
      assert BucketExact(idx, keys, m, l);
      assert Named(keys', m, l) == Named(keys, m, l);
    }
  }

  /** So does one who is not in the index because it is new. */
  lemma MoreKeysKeepExact<P>(idx: Index<P>, keys: map<P, string>, m: set<P>, p: P, k: string)
    requires Exact(idx, keys, m) && p !in keys
    ensures Exact(idx, keys[p := k], m)
  {
    RenamingKeepsExact(idx, keys, m, p, k);
  }

  /** Two exact indexes have the same buckets, with the same authors in each. */
  lemma ExactIsUnique<P>(idx: Index<P>, idx': Index<P>, keys: map<P, string>, m: set<P>)
    requires Exact(idx, keys, m) && Exact(idx', keys, m)
    ensures idx.Keys == idx'.Keys && forall k :: k in idx ==> idx[k] != [] && multiset(idx[k]) == multiset(idx'[k])
  {
    forall k ensures (k in idx <==> k in idx') && (k in idx ==> idx[k] != [] && multiset(idx[k]) == multiset(idx'[k])) {
      assert BucketExact(idx, keys, m, k) && BucketExact(idx', keys, m, k);
      if k in idx {
        NonEmptyBucket(idx[k], Named(keys, m, k));
      }
    }
  }

  lemma NonEmptyBucket<P>(bucket: seq<P>, named: set<P>)
    requires multiset(bucket) == multiset(named) && named != {}
    ensures bucket != []
  {
    var p :| p in named;
    assert p in multiset(named);
  }

  /**
    An author added under an id that is taken pushes the other author out of the
    contribution, but not out of the index.
   */
  lemma OverwrittenAuthorStays<P>(idx: Index<P>, keys: map<P, string>, m: set<P>, taken: P, p: P)
    requires Exact(idx, keys, m) && p in keys && p !in m && taken in m
    ensures !Exact(Indexed(idx, keys[p], p), keys, m - {taken} + {p})
  {
    var idx', k := Indexed(idx, keys[p], p), keys[taken];
    assert BucketExact(idx, keys, m, k);
    assert taken in Named(keys, m, k) && taken in multiset(idx[k]);
    assert taken in multiset(idx'[k]);
    assert taken !in Named(keys, m - {taken} + {p}, k);
    assert !BucketExact(idx', keys, m - {taken} + {p}, k);
  }

  /**
    Adding an author under an id that may be taken, by another author or by the
    very same, keeps the index exact if and only if it is not taken.
   */
  lemma AddingKeepsExact<P>(idx: Index<P>, keys: map<P, string>, m: set<P>, taken: set<P>, p: P)
    requires Exact(idx, keys, m) && p in keys && taken <= m && (p in m ==> taken == {p})
    requires forall q, r :: q in taken && r in taken ==> q == r
    ensures Exact(Indexed(idx, keys[p], p), keys, m - taken + {p}) <==> taken == {}
  {
    IndexingKeepsExact(idx, keys, m, p);
    if taken != {} {
      var q :| q in taken;
      assert taken == {q};
      if p in m {
        assert m - taken + {p} == m + {p};
      } else {
        OverwrittenAuthorStays(idx, keys, m, q, p);
      }
    } else {
      assert m - taken == m;
    }
  }
}
