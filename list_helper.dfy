// The list searches used by the viewer to locate the packet shown for a time offset.
// A comparer maps an element to a sign: 0 for a match, negative when the sought
// element lies further on, positive when it lies before.

module ListHelper {
  import opened Wrappers

  /** The comparer agrees with the list order: negatives first, then matches, then positives. */
  predicate Ordered<T>(list: seq<T>, comparer: T -> int)
  {
    forall i, j :: 0 <= i <= j < |list| ==> Sign(comparer(list[i])) <= Sign(comparer(list[j]))
  }

  function Sign(c: int): (r: int)
    ensures r == 0 <==> c == 0
    ensures r < 0 <==> c < 0
  {
    if c < 0 then -1 else if c == 0 then 0 else 1
  }

  /** Some element of the list is a match. */
  predicate HasMatch<T>(list: seq<T>, comparer: T -> int)
  {
    exists j :: 0 <= j < |list| && comparer(list[j]) == 0
  }

  /**
   * Bisection over [min, max]. A match found at the midpoint is returned at once; otherwise
   * the search returns `min` once the range has closed. The result is a valid index of a
   * non-empty list and 0 for an empty one; on a list the comparer orders, it is a match
   * whenever there is one.
   */
  method BinarySearchForMatch<T>(list: seq<T>, comparer: T -> int) returns (r: int)
    ensures |list| == 0 ==> r == 0
    ensures |list| > 0 ==> 0 <= r < |list|
    ensures Ordered(list, comparer) && HasMatch(list, comparer) ==> comparer(list[r]) == 0
  {
    var min := 0;
    var max := |list| - 1;
    while min < max
      invariant 0 <= min && max < |list|
      invariant |list| > 0 ==> min <= |list| - 1
      invariant |list| == 0 ==> min == 0
      invariant Ordered(list, comparer) ==>
        forall j :: 0 <= j < |list| && comparer(list[j]) == 0 ==> min <= j <= max
      decreases max - min
    {
      var mid := (min + max) / 2;
      var comparison := comparer(list[mid]);
      if comparison == 0 {
        return mid;
      }
      if comparison < 0 {
        min := mid + 1;
      } else {
        max := mid - 1;
      }
    }
    if Ordered(list, comparer) && HasMatch(list, comparer) {
      var j :| 0 <= j < |list| && comparer(list[j]) == 0;
      assert min == j;
    }
    return min;
  }

  /** The smallest index whose element matches, or -1 when none does. */
  method FullSearchForMatch<T>(list: seq<T>, matcher: T -> int) returns (r: int)
    ensures -1 <= r < |list|
    ensures r == -1 <==> !HasMatch(list, matcher)
    ensures r >= 0 ==> matcher(list[r]) == 0 && forall k :: 0 <= k < r ==> matcher(list[k]) != 0
  {
    for index := 0 to |list|
      invariant forall k :: 0 <= k < index ==> matcher(list[k]) != 0
    {
      var comparison := matcher(list[index]);
      if comparison == 0 {
        return index;
      }
    }
    return -1;
  }

  /**
   * The walk that starts at `index` and moves by each comparison, within `fuel` steps:
   * `Some(i)` at a match, `Some(-1)` once the index leaves the list, `None` when the
   * walk is still going after `fuel` steps.
   */
  function LinearWalk<T>(list: seq<T>, matcher: T -> int, index: int, fuel: nat): (r: Option<int>)
    decreases fuel
  {
    if !(0 <= index < |list|) then Some(-1)
    else if fuel == 0 then None
    else
      var comparison := matcher(list[index]);
      if comparison == 0 then Some(index) else LinearWalk(list, matcher, index + comparison, fuel - 1)
  }

  /**
   * The linear search, run for at most `fuel` iterations of its loop (`None` when they run out).
   * It agrees with the walk.
   */
  method LinearSearchForMatch<T>(list: seq<T>, start: int, matcher: T -> int, fuel: nat) returns (r: Option<int>)
    ensures r == LinearWalk(list, matcher, start, fuel)
  {
    var index := start;
    var steps := fuel;
    while index < |list| && index >= 0
      invariant LinearWalk(list, matcher, index, steps) == LinearWalk(list, matcher, start, fuel)
      decreases steps
    {
      if steps == 0 {
        return None;
      }
      var comparison := matcher(list[index]);
      if comparison == 0 {
        return Some(index);
      }
      index := index + comparison;
      steps := steps - 1;
    }
    return Some(-1);
  }

  /** A finished walk returns -1 or the index of a match. */
  lemma {:induction false} LinearWalkResult<T>(list: seq<T>, matcher: T -> int, index: int, fuel: nat)
    ensures var r := LinearWalk(list, matcher, index, fuel);
      r.Some? ==> r.value == -1 || (0 <= r.value < |list| && matcher(list[r.value]) == 0)
    decreases fuel
  {
    if 0 <= index < |list| && fuel > 0 && matcher(list[index]) != 0 {
      LinearWalkResult(list, matcher, index + matcher(list[index]), fuel - 1);
    }
  }

  /** More fuel never changes the result of a walk that has finished. */
  lemma {:induction false} LinearWalkMoreFuel<T>(list: seq<T>, matcher: T -> int, index: int, fuel: nat, more: nat)
    requires LinearWalk(list, matcher, index, fuel).Some? && fuel <= more
    ensures LinearWalk(list, matcher, index, more) == LinearWalk(list, matcher, index, fuel)
    decreases fuel
  {
    if 0 <= index < |list| && matcher(list[index]) != 0 {
      LinearWalkMoreFuel(list, matcher, index + matcher(list[index]), fuel - 1, more - 1);
    }
  }

  /**
   * Two neighbours that point at each other trap the walk: on such a list the search never
   * finishes, whatever the fuel.
   */
  lemma {:induction false} LinearWalkCycle<T>(list: seq<T>, matcher: T -> int, i: int, fuel: nat)
    requires 0 <= i && i + 1 < |list| && matcher(list[i]) == 1 && matcher(list[i + 1]) == -1
    ensures LinearWalk(list, matcher, i, fuel) == None
    ensures LinearWalk(list, matcher, i + 1, fuel) == None
    decreases fuel
  {
    if fuel > 0 {
      LinearWalkCycle(list, matcher, i, fuel - 1);
    }
  }
}
