/**
 * Resolution of a passage range `<stem>:<a>-<b>` inside a work: the start
 * index and the end index the /texts/urns and /texts handlers compute before
 * slicing the work.
 */
module Ranges {
  import opened Collections
  import opened Levels

  /**
   * `startindex`: the last exact occurrence of the start URN; otherwise the
   * first node matching it at the lowest level that matches anywhere;
   * otherwise 0.
   */
  function RangeStart(urns: seq<string>, su: string): (s: nat)
    ensures |urns| > 0 ==> s < |urns|
    ensures su in urns ==> urns[s] == su && forall j :: s < j < |urns| ==> urns[j] != su
    ensures su !in urns && LowestLevel(urns, su) > 0 ==>
              && LevelMatch(urns[s], su, LowestLevel(urns, su))
              && forall j :: 0 <= j < s ==> !LevelMatch(urns[j], su, LowestLevel(urns, su))
    ensures su !in urns && LowestLevel(urns, su) == 0 ==> s == 0
  {
    if su in urns then LastIndexOf(urns, su)
    else
      var level := LowestLevel(urns, su);
      if level == 0 then 0 else FirstWhere(urns, MatchesLevel(su, level))
  }

  /**
   * `endindex`: the last exact occurrence of the end URN; otherwise the last
   * node matching it at the lowest level that matches anywhere; otherwise the
   * last node of the work.
   */
  function RangeEnd(urns: seq<string>, eu: string): (e: int)
    ensures -1 <= e < |urns| && (|urns| > 0 ==> 0 <= e)
    ensures eu in urns ==> urns[e] == eu && forall j :: e < j < |urns| ==> urns[j] != eu
    ensures eu !in urns && LowestLevel(urns, eu) > 0 ==>
              && LevelMatch(urns[e], eu, LowestLevel(urns, eu))
              && forall j :: e < j < |urns| ==> !LevelMatch(urns[j], eu, LowestLevel(urns, eu))
    ensures eu !in urns && LowestLevel(urns, eu) == 0 ==> e == |urns| - 1
  {
    if eu in urns then LastIndexOf(urns, eu)
    else
      var level := LowestLevel(urns, eu);
      if level == 0 then |urns| - 1 else LastWhere(urns, MatchesLevel(eu, level))
  }

  /** The `switch` that finds `startindex`. */
  method ResolveStart(urns: seq<string>, su: string) returns (startindex: int)
    ensures startindex == RangeStart(urns, su)
  {
    var exact := Contains(urns, su);
    if exact {
      startindex := ScanLastIndex(urns, su);
      return;
    }
    var level := FindLowestLevel(urns, su);
    if level == 0 {
      return 0;
    }
    var flags := MatchFlags(urns, su, level);
    startindex := FirstTrue(flags);
    assert forall j :: 0 <= j < |urns| ==> flags[j] == MatchesLevel(su, level)(urns[j]);
  }

  /** The `switch` that finds `endindex`. */
  method ResolveEnd(urns: seq<string>, eu: string) returns (endindex: int)
    ensures endindex == RangeEnd(urns, eu)
  {
    var exact := Contains(urns, eu);
    if exact {
      endindex := ScanLastIndex(urns, eu);
      return;
    }
    var level := FindLowestLevel(urns, eu);
    if level == 0 {
      return |urns| - 1;
    }
    var flags := MatchFlags(urns, eu, level);
    endindex := LastTrue(flags);
    assert forall j :: 0 <= j < |urns| ==> flags[j] == MatchesLevel(eu, level)(urns[j]);
  }

  /**
   * When both endpoints are nodes of the work, each at a single position
   * a <= b, the range is exactly the nodes a..b, in work order.
   */
  lemma ExactEndpoints(urns: seq<string>, su: string, eu: string, a: nat, b: nat)
    requires a <= b < |urns| && urns[a] == su && urns[b] == eu
    requires forall j :: 0 <= j < |urns| && j != a ==> urns[j] != su
    requires forall j :: 0 <= j < |urns| && j != b ==> urns[j] != eu
    ensures RangeStart(urns, su) == a && RangeEnd(urns, eu) == b
    ensures var s := urns[RangeStart(urns, su)..RangeEnd(urns, eu) + 1];
      |s| == b - a + 1 && s[0] == su && s[|s| - 1] == eu && forall k :: 0 <= k < |s| ==> s[k] == urns[a + k]
  {
  }
}
