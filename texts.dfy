/**
 * The /texts handlers over an already-ingested corpus: the work listing,
 * first / last / previous / next node, the URN listing of a passage
 * (/texts/urns) and the passage itself (/texts).
 *
 * Each handler is a specification function of the de-duplicated stem list
 * `works` (whose order Go leaves to map iteration) and a method that does
 * what the handler does step by step; the method's reply is the function's
 * value for the stem list it happened to compute.
 */
module Texts {
  import opened Collections
  import opened CtsUrn
  import opened Levels
  import opened Ranges
  import opened Works
  import opened Responses
  import opened Navigation

  const TextsService := "/texts"
  const FirstService := "/texts/first"
  const LastService := "/texts/last"
  const PreviousService := "/texts/previous"
  const NextService := "/texts/next"
  const UrnsService := "/texts/urns"

  function NotValid(q: string): string { q + " is not valid CTS." }
  function NoResults(q: string): string { "No results for " + q }
  function NotFound(q: string): string { "Could not find node to " + q + " in source." }
  const CouldNotFindUrn := "Couldn't find URN."

  function Nodes(q: string, service: string, nodes: seq<Node>): Reply
  {
    Reply(NodeResponse([q], Success, service, "", nodes))
  }

  function NodeFailure(q: string, service: string, message: string): Reply
  {
    Reply(NodeResponse([q], Exception, service, message, []))
  }

  function Urns(q: string, urns: seq<string>): Reply
  {
    Reply(UrnResponse([q], Success, UrnsService, "", urns))
  }

  /** The replies of the node handlers when no work was found. */
  function Unlocated(lookup: Lookup, q: string, service: string): Reply
    requires !lookup.Found?
  {
    if lookup.NotCts? then NodeFailure(q, service, NotValid(q))
    else if lookup.Crashed? then Aborted
    else NodeFailure(q, service, NoResults(q))
  }

  // ---------------------------------------------------------------- /texts (listing)

  /** Every corpus URN cropped to its stem, with the trailing ":" put back. */
  function Listing(records: seq<Record>): (entries: seq<string>)
    requires AllCroppable(records)
    ensures |entries| == |records|
  {
    seq(|records|, i requires 0 <= i < |records| => Crop(records[i].urn) + ":")
  }

  /** ReturnWorkURNS: the de-duplicated stems; a short URN panics (recovered in 0.8). */
  method ReturnWorkUrns(rev: Revision, records: seq<Record>) returns (reply: Reply)
    ensures AllCroppable(records) ==>
              && reply.Reply? && reply.response.UrnResponse?
              && reply.response == UrnResponse([], Success, TextsService, "", reply.response.urns)
              && IsDedup(reply.response.urns, Listing(records))
    ensures !AllCroppable(records) ==>
              reply == if rev == V08 then Recovered(Aborted, [], TextsService) else Aborted
  {
    var urns: seq<string> := seq(|records|, i requires 0 <= i < |records| => records[i].urn);
    for i := 0 to |records|
      invariant |urns| == |records|
      invariant forall j :: 0 <= j < i ==> Croppable(records[j].urn) && urns[j] == Crop(records[j].urn) + ":"
    {
      if !Croppable(records[i].urn) {
        reply := Aborted;
        if rev == V08 {
          reply := Recovered(reply, [], TextsService);
        }
        return;
      }
      urns := urns[i := Crop(records[i].urn) + ":"];
    }
    assert urns == Listing(records);
    urns := RemoveDuplicatesUnordered(urns);
    reply := Reply(UrnResponse([], Success, TextsService, "", urns));
  }

  // ---------------------------------------------------------------- /texts/first, /texts/last

  /** The first node with Next = the second URN; indexing the second node panics in a one-node work. */
  function FirstOfWork(w: Work, q: string): Reply
    requires WellFormed(w)
  {
    if |w.urns| < 2 then Aborted
    else Nodes(q, FirstService, [Node(w.urns[0], w.texts[0], [], [w.urns[1]], w.index[0])])
  }

  function First(rev: Revision, works: seq<string>, records: seq<Record>, q: string): Reply
  {
    var lookup := Locate(works, records, q);
    var reply := if lookup.Found? then FirstOfWork(lookup.work, q) else Unlocated(lookup, q, FirstService);
    if rev == V08 then Recovered(reply, [], FirstService) else reply
  }

  method ReturnFirst(rev: Revision, records: seq<Record>, q: string) returns (reply: Reply)
    ensures exists works :: StemsFor(works, records, q) && reply == First(rev, works, records, q)
  {
    var lookup, works := LocateWork(records, q);
    if !lookup.Found? {
      reply := Unlocated(lookup, q, FirstService);
    } else {
      var w := lookup.work;
      if |w.urns| < 2 {
        reply := Aborted;
      } else {
        reply := Nodes(q, FirstService, [Node(w.urns[0], w.texts[0], [], [w.urns[1]], w.index[0])]);
      }
    }
    if rev == V08 {
      reply := Recovered(reply, [], FirstService);
    }
    assert StemsFor(works, records, q) && reply == First(rev, works, records, q);
  }

  /** The last node with Previous = the one before it; a one-node work panics. */
  function LastOfWork(w: Work, q: string): Reply
    requires WellFormed(w)
  {
    var n := |w.urns|;
    if n < 2 then Aborted
    else Nodes(q, LastService, [Node(w.urns[n - 1], w.texts[n - 1], [w.urns[n - 2]], [], w.index[n - 1])])
  }

  function Last(works: seq<string>, records: seq<Record>, q: string): Reply
  {
    var lookup := Locate(works, records, q);
    if lookup.Found? then LastOfWork(lookup.work, q) else Unlocated(lookup, q, LastService)
  }

  method ReturnLast(records: seq<Record>, q: string) returns (reply: Reply)
    ensures exists works :: StemsFor(works, records, q) && reply == Last(works, records, q)
  {
    var lookup, works := LocateWork(records, q);
    if !lookup.Found? {
      reply := Unlocated(lookup, q, LastService);
    } else {
      var w := lookup.work;
      var n := |w.urns|;
      if n < 2 {
        reply := Aborted;
      } else {
        reply := Nodes(q, LastService, [Node(w.urns[n - 1], w.texts[n - 1], [w.urns[n - 2]], [], w.index[n - 1])]);
      }
    }
    assert StemsFor(works, records, q) && reply == Last(works, records, q);
  }

  // ---------------------------------------------------------------- /texts/previous, /texts/next

  /** The node before the last occurrence of `q`; none at the start of the work. */
  function PrevOfWork(w: Work, q: string): Reply
    requires WellFormed(w)
  {
    if q !in w.urns then NodeFailure(q, PreviousService, NotFound(q))
    else
      var idx := LastIndexOf(w.urns, q);
      if idx == 0 then Nodes(q, PreviousService, [])
      else if idx - 1 == 0 then
        Nodes(q, PreviousService, [Node(w.urns[idx - 1], w.texts[idx - 1], [], [w.urns[idx]], w.index[idx - 1])])
      else
        Nodes(q, PreviousService, [Node(w.urns[idx - 1], w.texts[idx - 1], [w.urns[idx - 2]], [w.urns[idx]], w.index[idx - 1])])
  }

  function Prev(works: seq<string>, records: seq<Record>, q: string): Reply
  {
    var lookup := Locate(works, records, q);
    if lookup.Found? then PrevOfWork(lookup.work, q) else Unlocated(lookup, q, PreviousService)
  }

  method PrevInWork(w: Work, q: string) returns (reply: Reply)
    requires WellFormed(w)
    ensures reply == PrevOfWork(w, q)
  {
    var requestedIndex := ScanLastIndex(w.urns, q);
    var exact := Contains(w.urns, q);
    if !exact {
      return NodeFailure(q, PreviousService, NotFound(q));
    }
    if requestedIndex == 0 {
      reply := Nodes(q, PreviousService, []);
    } else if requestedIndex - 1 == 0 {
      reply := Nodes(q, PreviousService,
        [Node(w.urns[requestedIndex - 1], w.texts[requestedIndex - 1], [], [w.urns[requestedIndex]], w.index[requestedIndex - 1])]);
    } else {
      reply := Nodes(q, PreviousService,
        [Node(w.urns[requestedIndex - 1], w.texts[requestedIndex - 1], [w.urns[requestedIndex - 2]], [w.urns[requestedIndex]], w.index[requestedIndex - 1])]);
    }
  }

  method ReturnPrev(records: seq<Record>, q: string) returns (reply: Reply)
    ensures exists works :: StemsFor(works, records, q) && reply == Prev(works, records, q)
  {
    var lookup, works := LocateWork(records, q);
    if !lookup.Found? {
      reply := Unlocated(lookup, q, PreviousService);
    } else {
      reply := PrevInWork(lookup.work, q);
    }
    assert StemsFor(works, records, q) && reply == Prev(works, records, q);
  }

  /** The node after the last occurrence of `q`; none at the end of the work. */
  function NextOfWork(w: Work, q: string): Reply
    requires WellFormed(w)
  {
    if q !in w.urns then NodeFailure(q, NextService, NotFound(q))
    else
      var idx := LastIndexOf(w.urns, q);
      var n := |w.urns|;
      if idx == n - 1 then Nodes(q, NextService, [])
      else if idx + 1 == n - 1 then
        Nodes(q, NextService, [Node(w.urns[idx + 1], w.texts[idx + 1], [w.urns[idx]], [], w.index[idx + 1])])
      else
        Nodes(q, NextService, [Node(w.urns[idx + 1], w.texts[idx + 1], [w.urns[idx]], [w.urns[idx + 2]], w.index[idx + 1])])
  }

  function Next(works: seq<string>, records: seq<Record>, q: string): Reply
  {
    var lookup := Locate(works, records, q);
    if lookup.Found? then NextOfWork(lookup.work, q) else Unlocated(lookup, q, NextService)
  }

  method NextInWork(w: Work, q: string) returns (reply: Reply)
    requires WellFormed(w)
    ensures reply == NextOfWork(w, q)
  {
    var requestedIndex := ScanLastIndex(w.urns, q);
    var exact := Contains(w.urns, q);
    if !exact {
      return NodeFailure(q, NextService, NotFound(q));
    }
    var n := |w.urns|;
    if requestedIndex == n - 1 {
      reply := Nodes(q, NextService, []);
    } else if requestedIndex + 1 == n - 1 {
      reply := Nodes(q, NextService,
        [Node(w.urns[requestedIndex + 1], w.texts[requestedIndex + 1], [w.urns[requestedIndex]], [], w.index[requestedIndex + 1])]);
    } else {
      reply := Nodes(q, NextService,
        [Node(w.urns[requestedIndex + 1], w.texts[requestedIndex + 1], [w.urns[requestedIndex]], [w.urns[requestedIndex + 2]], w.index[requestedIndex + 1])]);
    }
  }

  method ReturnNext(records: seq<Record>, q: string) returns (reply: Reply)
    ensures exists works :: StemsFor(works, records, q) && reply == Next(works, records, q)
  {
    var lookup, works := LocateWork(records, q);
    if !lookup.Found? {
      reply := Unlocated(lookup, q, NextService);
    } else {
      reply := NextInWork(lookup.work, q);
    }
    assert StemsFor(works, records, q) && reply == Next(works, records, q);
  }

  // ---------------------------------------------------------------- /texts/urns

  /** The start and end index of a range query inside the work. */
  function RangeBounds(urns: seq<string>, q: string): (bounds: (nat, int))
    requires IsRange(q)
  {
    var ends := RangeEndpoints(q);
    (RangeStart(urns, ends.0), RangeEnd(urns, ends.1))
  }

  /** The pattern depth the /texts/urns handler runs at a level: level 4 reuses the level-3 pattern. */
  function ReffDepth(level: nat): nat
  {
    if level == 4 then 3 else level
  }

  /** ReturnReff once the work is known, as written: the level-4 branch filters with the level-3 pattern. */
  function ReffOfWorkAsWritten(w: Work, q: string): Reply
  {
    if IsRange(q) then
      var (s, e) := RangeBounds(w.urns, q);
      if s > e + 1 then Aborted else Urns(q, w.urns[s..e + 1])
    else if q in w.urns then Urns(q, [q])
    else
      var level := LowestLevel(w.urns, q);
      if level == 0 then Reply(UrnResponse([q], Exception, UrnsService, CouldNotFindUrn, []))
      else Urns(q, Filter(w.urns, MatchesLevel(q, ReffDepth(level))))
  }

  /**
   * The intended listing once the work is known: a range lists the slice
   * start..end, an exact node lists itself, otherwise the nodes matching at
   * the lowest level are listed, the level-4 branch running the level-4
   * pattern. ReffOfWorkAsWritten differs from it only there.
   */
  function ReffOfWork(w: Work, q: string): Reply
  {
    if IsRange(q) then
      var (s, e) := RangeBounds(w.urns, q);
      if s > e + 1 then Aborted else Urns(q, w.urns[s..e + 1])
    else if q in w.urns then Urns(q, [q])
    else
      var level := LowestLevel(w.urns, q);
      if level == 0 then Reply(UrnResponse([q], Exception, UrnsService, CouldNotFindUrn, []))
      else Urns(q, Filter(w.urns, MatchesLevel(q, level)))
  }

  /** The /texts/urns reply for a stem list, as written. */
  function Reff(works: seq<string>, records: seq<Record>, q: string): Reply
  {
    var lookup := Locate(works, records, q);
    if lookup.NotCts? then NodeFailure(q, UrnsService, NotValid(q))
    else if lookup.Crashed? then Aborted
    else if lookup.NoWork? then Reply(UrnResponse([q], Exception, UrnsService, NoResults(q), []))
    else ReffOfWorkAsWritten(lookup.work, q)
  }

  /** The `matchingURNs` loop: append every URN whose flag is set. */
  method CollectMatching(urns: seq<string>, e: string, depth: nat, flags: seq<bool>) returns (matching: seq<string>)
    requires |flags| == |urns|
    requires forall i :: 0 <= i < |flags| ==> flags[i] == LevelMatch(urns[i], e, depth)
    ensures matching == Filter(urns, MatchesLevel(e, depth))
  {
    matching := [];
    for i := 0 to |flags|
      invariant matching == Filter(urns[..i], MatchesLevel(e, depth))
    {
      FilterSnoc(urns[..i], urns[i], MatchesLevel(e, depth));
      assert urns[..i + 1] == urns[..i] + [urns[i]];
      if flags[i] {
        matching := matching + [urns[i]];
      }
    }
    assert urns[..|flags|] == urns;
  }

  /** ReturnReff once the work is known: the range, exact and level switches, as written. */
  method ReffInWork(w: Work, q: string) returns (reply: Reply)
    ensures reply == ReffOfWorkAsWritten(w, q)
  {
    if IsRange(q) {
      reply := RangeReffInWork(w, q);
    } else {
      var exact := Contains(w.urns, q);
      if exact {
        reply := Urns(q, [q]);
      } else {
        reply := LevelReffInWork(w, q);
      }
    }
  }

  /** The range branch of ReturnReff. */
  method RangeReffInWork(w: Work, q: string) returns (reply: Reply)
    requires IsRange(q)
    ensures reply == ReffOfWorkAsWritten(w, q)
  {
    var ends := RangeEndpoints(q);
    var startindex := ResolveStart(w.urns, ends.0);
    var endindex := ResolveEnd(w.urns, ends.1);
    RangeReffOfWork(w, q, startindex, endindex);
    if startindex > endindex + 1 {
      reply := Aborted;
    } else {
      reply := Urns(q, w.urns[startindex..endindex + 1]);
    }
  }

  /** The listing of a range query, once its bounds are resolved. */
  lemma RangeReffOfWork(w: Work, q: string, s: nat, e: int)
    requires IsRange(q) && (s, e) == RangeBounds(w.urns, q)
    ensures e < |w.urns|
    ensures ReffOfWorkAsWritten(w, q) == if s > e + 1 then Aborted else Urns(q, w.urns[s..e + 1])
  {
  }

  /**
   * The level branch of ReturnReff, for a URN the work does not hold; as
   * written, the level-4 case filters with the level-3 pattern.
   */
  method LevelReffInWork(w: Work, q: string) returns (reply: Reply)
    requires !IsRange(q) && q !in w.urns
    ensures reply == ReffOfWorkAsWritten(w, q)
  {
    var level := FindLowestLevel(w.urns, q);
    if level == 0 {
      reply := Reply(UrnResponse([q], Exception, UrnsService, CouldNotFindUrn, []));
    } else {
      var depth := ReffDepth(level);
      var flags := MatchFlags(w.urns, q, depth);
      var matching := CollectMatching(w.urns, q, depth, flags);
      reply := Urns(q, matching);
    }
  }

  method ReturnReff(records: seq<Record>, q: string) returns (reply: Reply)
    ensures exists works :: StemsFor(works, records, q) && reply == Reff(works, records, q)
  {
    var lookup, works := LocateWork(records, q);
    if lookup.NotCts? {
      reply := NodeFailure(q, UrnsService, NotValid(q));
    } else if lookup.Crashed? {
      reply := Aborted;
    } else if lookup.NoWork? {
      reply := Reply(UrnResponse([q], Exception, UrnsService, NoResults(q), []));
    } else {
      reply := ReffInWork(lookup.work, q);
    }
    assert StemsFor(works, records, q) && reply == Reff(works, records, q);
  }

  // ---------------------------------------------------------------- /texts (passage)

  /** The exact branch: the node itself, with Next omitted at the end and Previous at the start. */
  function ExactPassage(w: Work, q: string, idx: nat): Reply
    requires WellFormed(w) && idx < |w.urns|
  {
    if idx == 0 then
      if |w.urns| < 2 then Aborted
      else Nodes(q, TextsService, [Node(w.urns[0], w.texts[0], [], [w.urns[1]], w.index[0])])
    else if idx == |w.urns| - 1 then
      Nodes(q, TextsService, [Node(w.urns[idx], w.texts[idx], [w.urns[idx - 1]], [], w.index[idx])])
    else
      Nodes(q, TextsService, [Node(w.urns[idx], w.texts[idx], [w.urns[idx - 1]], [w.urns[idx + 1]], w.index[idx])])
  }

  /** ReturnPassage once the work is known: exact, then levels 1..4, then range, else Exception. */
  function PassageOfWork(w: Work, q: string): Reply
    requires WellFormed(w)
  {
    if q in w.urns then ExactPassage(w, q, LastIndexOf(w.urns, q))
    else
      var level := LowestLevel(w.urns, q);
      if level > 0 then Nodes(q, TextsService, MatchingNodes(w, q, level))
      else if IsRange(q) then
        var (s, e) := RangeBounds(w.urns, q);
        if s > e + 1 then Aborted else Nodes(q, TextsService, RangeNodes(w, s, e))
      else NodeFailure(q, TextsService, NotFound(q))
  }

  function Passage(works: seq<string>, records: seq<Record>, q: string): Reply
  {
    var lookup := Locate(works, records, q);
    if lookup.Found? then PassageOfWork(lookup.work, q) else Unlocated(lookup, q, TextsService)
  }

  method PassageInWork(w: Work, q: string) returns (reply: Reply)
    requires WellFormed(w)
    ensures reply == PassageOfWork(w, q)
  {
    var requestedIndex := ScanLastIndex(w.urns, q);
    var exact := Contains(w.urns, q);
    if exact {
      var n := |w.urns|;
      if requestedIndex == 0 {
        if n < 2 {
          return Aborted;
        }
        reply := Nodes(q, TextsService, [Node(w.urns[0], w.texts[0], [], [w.urns[1]], w.index[0])]);
      } else if requestedIndex == n - 1 {
        reply := Nodes(q, TextsService,
          [Node(w.urns[requestedIndex], w.texts[requestedIndex], [w.urns[requestedIndex - 1]], [], w.index[requestedIndex])]);
      } else {
        reply := Nodes(q, TextsService,
          [Node(w.urns[requestedIndex], w.texts[requestedIndex], [w.urns[requestedIndex - 1]], [w.urns[requestedIndex + 1]], w.index[requestedIndex])]);
      }
      return;
    }
    var level := FindLowestLevel(w.urns, q);
    if level > 0 {
      var flags := MatchFlags(w.urns, q, level);
      var matchingNodes := AnnotateMatching(w, q, level, flags);
      return Nodes(q, TextsService, matchingNodes);
    }
    if IsRange(q) {
      var ends := RangeEndpoints(q);
      var startindex := ResolveStart(w.urns, ends.0);
      var endindex := ResolveEnd(w.urns, ends.1);
      if startindex > endindex + 1 {
        return Aborted;
      }
      var rangeNodes := AnnotateRange(w, startindex, endindex);
      return Nodes(q, TextsService, rangeNodes);
    }
    reply := NodeFailure(q, TextsService, NotFound(q));
  }

  method ReturnPassage(records: seq<Record>, q: string) returns (reply: Reply)
    ensures exists works :: StemsFor(works, records, q) && reply == Passage(works, records, q)
  {
    var lookup, works := LocateWork(records, q);
    if !lookup.Found? {
      reply := Unlocated(lookup, q, TextsService);
    } else {
      reply := PassageInWork(lookup.work, q);
    }
    assert StemsFor(works, records, q) && reply == Passage(works, records, q);
  }
}
