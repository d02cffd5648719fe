/**
 * Slice helpers of the service: `contains`, `boolcontains` and
 * `removeDuplicatesUnordered`, the forward and backward scans that pick the
 * first or last flagged node, and the filtering the handlers do by appending
 * every element whose flag is set.
 */
module Collections {

  /** The indices of the elements of `s` that satisfy `keep`, in increasing order. */
  function Positions<T>(s: seq<T>, keep: T -> bool): (p: seq<nat>)
    ensures forall k :: 0 <= k < |p| ==> p[k] < |s| && keep(s[p[k]])
    ensures forall k, l :: 0 <= k < l < |p| ==> p[k] < p[l]
    ensures forall j :: 0 <= j < |s| && keep(s[j]) ==> j in p
    decreases |s|
  {
    if |s| == 0 then []
    else
      var front := s[..|s| - 1];
      assert forall j :: 0 <= j < |front| ==> front[j] == s[j];
      Positions(front, keep) + (if keep(s[|s| - 1]) then [|s| - 1] else [])
  }

  /** The elements of `s` that satisfy `keep`, in their order in `s`. */
  function Filter<T>(s: seq<T>, keep: T -> bool): (r: seq<T>)
    ensures |r| == |Positions(s, keep)|
    ensures forall k :: 0 <= k < |r| ==> r[k] == s[Positions(s, keep)[k]]
    decreases |s|
  {
    if |s| == 0 then []
    else
      var front := s[..|s| - 1];
      assert forall j :: 0 <= j < |front| ==> front[j] == s[j];
      Filter(front, keep) + (if keep(s[|s| - 1]) then [s[|s| - 1]] else [])
  }

  /** Extending `s` by one element extends its filter by that element when it is kept. */
  lemma FilterSnoc<T>(s: seq<T>, x: T, keep: T -> bool)
    ensures Filter(s + [x], keep) == Filter(s, keep) + (if keep(x) then [x] else [])
    ensures Positions(s + [x], keep) == Positions(s, keep) + (if keep(x) then [|s|] else [])
  {
    assert (s + [x])[..|s|] == s;
  }

  /** No element before the first position, or after the last one, is kept. */
  lemma PositionsBounds<T>(s: seq<T>, keep: T -> bool)
    requires |Positions(s, keep)| > 0
    ensures forall j :: 0 <= j < Positions(s, keep)[0] ==> !keep(s[j])
    ensures forall j :: Positions(s, keep)[|Positions(s, keep)| - 1] < j < |s| ==> !keep(s[j])
  {
    var p := Positions(s, keep);
    forall j | 0 <= j < |s| && keep(s[j])
      ensures p[0] <= j <= p[|p| - 1]
    {
      var k :| 0 <= k < |p| && p[k] == j;
      assert k == 0 || p[0] < p[k];
      assert k == |p| - 1 || p[k] < p[|p| - 1];
    }
  }

  /** Nothing is kept when no element satisfies `keep`. */
  lemma {:induction false} NoneKept<T>(s: seq<T>, keep: T -> bool)
    requires forall j :: 0 <= j < |s| ==> !keep(s[j])
    ensures Positions(s, keep) == [] && Filter(s, keep) == []
    decreases |s|
  {
    if |s| > 0 {
      var front := s[..|s| - 1];
      assert forall j :: 0 <= j < |front| ==> front[j] == s[j];
      NoneKept(front, keep);
    }
  }

  /** An element that satisfies `keep` is kept. */
  lemma SomeKept<T>(s: seq<T>, keep: T -> bool, i: nat)
    requires i < |s| && keep(s[i])
    ensures i in Positions(s, keep) && |Filter(s, keep)| > 0
  {
  }

  /** Index of the first element satisfying `keep`; 0 when there is none. */
  function FirstWhere<T>(s: seq<T>, keep: T -> bool): (i: nat)
    ensures (exists j :: 0 <= j < |s| && keep(s[j])) ==>
              i < |s| && keep(s[i]) && forall j :: 0 <= j < i ==> !keep(s[j])
    ensures (forall j :: 0 <= j < |s| ==> !keep(s[j])) ==> i == 0
  {
    var p := Positions(s, keep);
    if |p| == 0 then 0
    else
      PositionsBounds(s, keep);
      p[0]
  }

  /** Index of the last element satisfying `keep`; 0 when there is none. */
  function LastWhere<T>(s: seq<T>, keep: T -> bool): (i: nat)
    ensures (exists j :: 0 <= j < |s| && keep(s[j])) ==>
              i < |s| && keep(s[i]) && forall j :: i < j < |s| ==> !keep(s[j])
    ensures (forall j :: 0 <= j < |s| ==> !keep(s[j])) ==> i == 0
  {
    var p := Positions(s, keep);
    if |p| == 0 then 0
    else
      PositionsBounds(s, keep);
      p[|p| - 1]
  }

  /** Index of the last element equal to `x`; 0 when there is none. */
  function LastIndexOf<T(==)>(s: seq<T>, x: T): (i: nat)
    ensures x in s ==> i < |s| && s[i] == x && forall j :: i < j < |s| ==> s[j] != x
    ensures x !in s ==> i == 0
    decreases |s|
  {
    if |s| == 0 then 0
    else if s[|s| - 1] == x then |s| - 1
    else
      var front := s[..|s| - 1];
      assert forall j :: 0 <= j < |front| ==> front[j] == s[j];
      assert x in s ==> x in front;
      LastIndexOf(front, x)
  }

  predicate NoDuplicates<T(==)>(s: seq<T>)
  {
    forall i, j :: 0 <= i < j < |s| ==> s[i] != s[j]
  }

  /** `r` lists every element of `s` exactly once, in some order. */
  predicate IsDedup<T(==)>(r: seq<T>, s: seq<T>)
  {
    && NoDuplicates(r)
    && (forall i :: 0 <= i < |r| ==> r[i] in s)
    && (forall j :: 0 <= j < |s| ==> s[j] in r)
  }

  /**
   * A reference de-duplication: the first occurrence of every element, in
   * the order of `s`. It shows that a de-duplicated list always exists.
   */
  function Dedup<T(==)>(s: seq<T>): (r: seq<T>)
    ensures IsDedup(r, s)
    decreases |s|
  {
    if |s| == 0 then []
    else
      var front := s[..|s| - 1];
      var last := s[|s| - 1];
      assert s == front + [last];
      var r := Dedup(front);
      if last in r then r else r + [last]
  }

  /** contains and boolcontains: a linear search with an early return. */
  method Contains<T(==)>(list: seq<T>, x: T) returns (found: bool)
    ensures found <==> x in list
  {
    for i := 0 to |list|
      invariant x !in list[..i]
    {
      if list[i] == x {
        return true;
      }
      assert list[..i + 1] == list[..i] + [list[i]];
    }
    return false;
  }

  /**
   * removeDuplicatesUnordered: the elements are recorded as keys of a map
   * whose values are all `true` (a set), and the keys are then listed in the
   * map's iteration order, which Go leaves unspecified; the choice `:|` below
   * stands for that order.
   */
  method RemoveDuplicatesUnordered<T(==)>(elements: seq<T>) returns (result: seq<T>)
    ensures IsDedup(result, elements)
  {
    var encountered: set<T> := {};
    for v := 0 to |elements|
      invariant forall x :: x in encountered <==> x in elements[..v]
    {
      assert elements[..v + 1] == elements[..v] + [elements[v]];
      encountered := encountered + {elements[v]};
    }
    assert elements[..|elements|] == elements;
    result := [];
    var remaining := encountered;
    while remaining != {}
      invariant remaining <= encountered
      invariant NoDuplicates(result)
      invariant forall x :: x in result <==> x in encountered && x !in remaining
      decreases remaining
    {
      var key :| key in remaining;
      result := result + [key];
      remaining := remaining - {key};
    }
  }

  /** The forward scan with `break`: index of the first `true`; 0 when there is none. */
  method FirstTrue(flags: seq<bool>) returns (index: nat)
    ensures true in flags ==> index < |flags| && flags[index] && forall j :: 0 <= j < index ==> !flags[j]
    ensures true !in flags ==> index == 0
  {
    index := 0;
    var i := 0;
    while i < |flags|
      invariant 0 <= i <= |flags|
      invariant forall j :: 0 <= j < i ==> !flags[j]
      invariant index == 0
    {
      if flags[i] {
        index := i;
        return;
      }
      i := i + 1;
    }
  }

  /** The backward scan with `break`: index of the last `true`; 0 when there is none. */
  method LastTrue(flags: seq<bool>) returns (index: nat)
    ensures true in flags ==> index < |flags| && flags[index] && forall j :: index < j < |flags| ==> !flags[j]
    ensures true !in flags ==> index == 0
  {
    index := 0;
    var i := |flags| - 1;
    while i >= 0
      invariant -1 <= i < |flags|
      invariant forall j :: i < j < |flags| ==> !flags[j]
      invariant index == 0
    {
      if flags[i] {
        index := i;
        return;
      }
      i := i - 1;
    }
  }

  /** The `requestedIndex` loop: the last position holding `x`; 0 when there is none. */
  method ScanLastIndex<T(==)>(s: seq<T>, x: T) returns (index: nat)
    ensures index == LastIndexOf(s, x)
  {
    index := 0;
    for i := 0 to |s|
      invariant x in s[..i] ==> index < i && s[index] == x && forall j :: index < j < i ==> s[j] != x
      invariant x !in s[..i] ==> index == 0
    {
      assert s[..i + 1] == s[..i] + [s[i]];
      if s[i] == x {
        index := i;
      }
    }
    assert s[..|s|] == s;
  }
}
