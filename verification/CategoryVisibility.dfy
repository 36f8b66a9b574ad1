/**
  How far up the tree an event is shown: the recursive visibility of a
  category, as a minimum over the category and its ancestors.
 */
module CategoryVisibility {
  import opened Common

  /**
    `Category.getVisibility`, on the visibilities set at the category and at
    its ancestors, nearest first; the last one is the root's.
   */
  function Visibility(raw: seq<int>): int
    requires raw != []
  {
    if |raw| == 1 then raw[0] else Max(0, Min(raw[0], Visibility(raw[1..]) + 1))
  }

  /** `Conference.getFullVisibility`, with the event's own visibility. */
  function FullVisibility(own: int, raw: seq<int>): int
    requires raw != []
  {
    Max(0, Min(own, Visibility(raw)))
  }

  /** What the ancestor at distance `k` allows. */
  function Horizon(raw: seq<int>, k: nat): int
    requires k < |raw|
  {
    if k < |raw| - 1 then Max(0, raw[k]) + k
    else if k == 0 then raw[0]
    else Max(-1, raw[k]) + k
  }

  /** The recursion computes the least of the horizons. */
  lemma {:induction false} LeastHorizon(raw: seq<int>) returns (k: nat)
    requires raw != []
    ensures k < |raw| && Visibility(raw) == Horizon(raw, k)
    ensures forall j :: 0 <= j < |raw| ==> Visibility(raw) <= Horizon(raw, j)
  {
    if |raw| == 1 {
      k := 0;
    } else {
      var up := raw[1..];
      var l := LeastHorizon(up);
      forall j | 1 <= j < |raw| ensures Visibility(raw) <= Horizon(raw, j) {
        assert Visibility(up) <= Horizon(up, j - 1);
      }
      k := if Max(0, raw[0]) <= Visibility(raw) then 0 else l + 1;
    }
  }

  /** An event's full visibility is the least of its own and the horizons, or 0 where that is negative. */
  lemma LeastOfOwnAndHorizons(own: int, raw: seq<int>)
    requires raw != []
    ensures var v := FullVisibility(own, raw);
            && v >= 0 && v <= Max(0, own) && (forall j :: 0 <= j < |raw| ==> v <= Max(0, Horizon(raw, j)))
            && (v == 0 || v == own || exists k :: 0 <= k < |raw| && v == Horizon(raw, k))
  {
    var k := LeastHorizon(raw);
  }

  /**
    Going down one level, what is shown above an event never grows: depth minus
    visibility does not decrease, exactly unless the parent is the root and was
    given a visibility below -1.
   */
  lemma DepthMinusVisibility(raw: seq<int>)
    requires |raw| >= 2
    ensures (|raw| - 1) - Visibility(raw[1..]) <= |raw| - Visibility(raw) <==> |raw| > 2 || raw[1] >= -1
  {
    NonNegativeBelowRoot(raw[1..]);
  }

  /** Below the root every visibility is non-negative, whatever was set. */
  lemma NonNegativeBelowRoot(raw: seq<int>)
    requires raw != []
    ensures Visibility(raw) >= 0 || |raw| == 1
    ensures raw[|raw| - 1] >= 0 ==> Visibility(raw) >= 0
  {
  }

  /**
    An event is listed in the ancestor at distance `k` of its category exactly when
    its own visibility reaches that far, and so does that of every category on the way,
    the ancestor included; the one exception is a root with a negative visibility,
    which also hides everything one level below itself.
   */
  lemma ShownWithinAllHorizons(own: int, raw: seq<int>, k: nat)
    requires k < |raw|
    ensures FullVisibility(own, raw) > k <==>
            && own > k
            && (forall j :: 0 <= j <= k ==> raw[j] > k - j)
            && (k + 2 == |raw| ==> raw[k + 1] >= 0)
  {
    var l := LeastHorizon(raw);
    forall j | 0 <= j < |raw|
      ensures Horizon(raw, j) > k <==> if j <= k then raw[j] > k - j else j == k + 1 && j == |raw| - 1 ==> raw[j] >= 0
    {
    }
    if FullVisibility(own, raw) > k {
      forall j | 0 <= j <= k ensures raw[j] > k - j {
        assert Visibility(raw) <= Horizon(raw, j);
      }
      if k + 2 == |raw| {
        assert Visibility(raw) <= Horizon(raw, k + 1);
      }
    }
  }
}
