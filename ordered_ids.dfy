/**
 * The iteration order of an id-keyed std::map: ascending ids.
 */
module OrderedIds {

  ghost predicate Ascending(r: seq<nat>)
  {
    forall i, j :: 0 <= i < j < |r| ==> r[i] < r[j]
  }

  ghost function MaxOf(s: set<nat>): (m: nat)
    requires s != {}
    ensures m in s && forall k :: k in s ==> k <= m
  {
    var x :| x in s;
    var others := s - {x};
    assert forall k :: k in s ==> k == x || k in others;
    if others == {} then x
    else
      var rest := MaxOf(others);
      if rest < x then x else rest
  }

  ghost function MinOf(s: set<nat>): (m: nat)
    requires s != {}
    ensures m in s && forall k :: k in s ==> m <= k
  {
    var x :| x in s;
    var others := s - {x};
    assert forall k :: k in s ==> k == x || k in others;
    if others == {} then x
    else
      var rest := MinOf(others);
      if x < rest then x else rest
  }

  /** The keys of a set in the order a std::map visits them. */
  ghost function SortedIds(s: set<nat>): (r: seq<nat>)
    ensures |r| == |s|
    ensures forall k :: k in r <==> k in s
  {
    if s == {} then []
    else
      var m := MaxOf(s);
      SortedIds(s - {m}) + [m]
  }

  /** The keys come out strictly ascending. */
  lemma {:induction false} SortedIdsAscending(s: set<nat>)
    ensures Ascending(SortedIds(s))
  {
    if s != {} {
      var m := MaxOf(s);
      SortedIdsAscending(s - {m});
    }
  }

  /** Visiting one more key, larger than all visited so far, appends it. */
  lemma SortedIdsExtend(s: set<nat>, k: nat)
    requires forall j :: j in s ==> j < k
    ensures SortedIds(s + {k}) == SortedIds(s) + [k]
  {
    var t := s + {k};
    assert MaxOf(t) == k;
    assert t - {k} == s;
  }

  /** The next key a std::map iterator yields: the smallest one not yet visited. */
  method PickSmallest(s: set<nat>) returns (k: nat)
    requires s != {}
    ensures k in s && forall j :: j in s ==> k <= j
  {
    ghost var m := MinOf(s);
    assert m in s && forall j :: j in s ==> m <= j;
    k :| k in s && forall j :: j in s ==> k <= j;
  }

  /**
   * One turn of an ascending walk over `keys`: moving the smallest
   * unvisited key into the visited ones keeps the two parts a split of
   * `keys`, and every visited key below every unvisited one.
   */
  lemma VisitSmallest(keys: set<nat>, visited: set<nat>, remaining: set<nat>, k: nat)
    requires remaining <= keys && visited == keys - remaining
    requires forall a, b :: a in visited && b in remaining ==> a < b
    requires k in remaining && forall j :: j in remaining ==> k <= j
    ensures remaining - {k} <= keys && visited + {k} == keys - (remaining - {k})
    ensures forall j :: j in visited ==> j < k
    ensures forall a, b :: a in visited + {k} && b in remaining - {k} ==> a < b
  {
  }

  /** The keys of a std::map as its iterator yields them, one PickSmallest at a time. */
  method SortedKeys(s: set<nat>) returns (ids: seq<nat>)
    ensures ids == SortedIds(s)
  {
    ids := [];
    var remaining := s;
    ghost var visited: set<nat> := {};
    while remaining != {}
      invariant remaining <= s && visited == s - remaining
      invariant forall a, b :: a in visited && b in remaining ==> a < b
      invariant ids == SortedIds(visited)
      decreases remaining
    {
      var k := PickSmallest(remaining);
      VisitSmallest(s, visited, remaining, k);
      SortedIdsExtend(visited, k);
      ids := ids + [k];
      visited := visited + {k};
      remaining := remaining - {k};
    }
    assert visited == s;
  }
}
