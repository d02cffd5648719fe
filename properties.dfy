/**
 * What the /texts handlers promise, stated against the corpus, the work
 * and each other.
 */
module TextsProperties {
  import opened Strings
  import opened Collections
  import opened CtsUrn
  import opened Levels
  import opened Ranges
  import opened Works
  import opened Responses
  import opened Navigation
  import opened Texts

  /** The URNs of a list of nodes. */
  function UrnsOf(nodes: seq<Node>): (urns: seq<string>)
    ensures |urns| == |nodes| && forall k :: 0 <= k < |nodes| ==> urns[k] == nodes[k].urn
  {
    seq(|nodes|, k requires 0 <= k < |nodes| => nodes[k].urn)
  }

  // ---------------------------------------------------------------- listing

  /**
   * Every entry of the work listing is a work stem of the corpus (its first
   * four fields) followed by an empty fifth field, every stem is listed, and
   * none twice.
   */
  lemma ListingEntries(records: seq<Record>, listing: seq<string>)
    requires AllCroppable(records) && IsDedup(listing, Listing(records))
    ensures forall entry :: entry in listing ==> exists j :: 0 <= j < |records| && IsStemEntry(entry, records[j].urn)
    ensures forall j :: 0 <= j < |records| ==> Crop(records[j].urn) + ":" in listing
    ensures NoDuplicates(listing)
  {
    forall entry | entry in listing
      ensures exists j :: 0 <= j < |records| && IsStemEntry(entry, records[j].urn)
    {
      EntryOrigin(records, entry);
    }
    forall j | 0 <= j < |records|
      ensures Crop(records[j].urn) + ":" in listing
    {
      assert Listing(records)[j] == Crop(records[j].urn) + ":";
    }
  }

  /** An entry of the listing comes from some record. */
  lemma EntryOrigin(records: seq<Record>, entry: string)
    requires AllCroppable(records) && entry in Listing(records)
    ensures exists j :: 0 <= j < |records| && IsStemEntry(entry, records[j].urn)
  {
    var j :| 0 <= j < |records| && Listing(records)[j] == entry;
    CropColonFields(records[j].urn);
  }

  /** `entry` is the first four fields of `urn` followed by an empty field. */
  predicate IsStemEntry(entry: string, urn: string)
  {
    Croppable(urn) && Fields(entry) == Fields(urn)[..4] + [""]
  }

  // ---------------------------------------------------------------- first / last

  /**
   * /texts/first answers with the first corpus record of the selected work
   * (sequence 1), whose Next is the work's second record; a work of one node
   * panics, which 0.8 turns into the generic Exception.
   */
  lemma FirstIsFirstRecord(rev: Revision, works: seq<string>, records: seq<Record>, q: string)
    requires Locate(works, records, q).Found?
    ensures var stem := Locate(works, records, q).work.workUrn;
            var p := Positions(records, HasStem(stem));
            && (|p| >= 2 ==>
                  && First(rev, works, records, q)
                       == Nodes(q, FirstService, [Node(records[p[0]].urn, records[p[0]].text, [], [records[p[1]].urn], 1)])
                  && (forall j :: 0 <= j < p[0] ==> !HasStem(stem)(records[j]))
                  && (forall j :: p[0] < j < p[1] ==> !HasStem(stem)(records[j])))
            && (|p| < 2 ==>
                  First(rev, works, records, q)
                    == if rev == V08 then Reply(NodeResponse([], Exception, FirstService, ErrorEncountered, [])) else Aborted)
  {
    var w := Locate(works, records, q).work;
    FirstOfWorkIsFirstRecord(records, w.workUrn, q);
  }

  /** FirstIsFirstRecord for the work of a given stem, before the 0.8 recover. */
  lemma FirstOfWorkIsFirstRecord(records: seq<Record>, stem: string, q: string)
    ensures var p := Positions(records, HasStem(stem));
            var first := FirstOfWork(WorkOf(records, stem), q);
            && (|p| >= 2 ==>
                  && first == Nodes(q, FirstService, [Node(records[p[0]].urn, records[p[0]].text, [], [records[p[1]].urn], 1)])
                  && (forall j :: 0 <= j < p[0] ==> !HasStem(stem)(records[j]))
                  && (forall j :: p[0] < j < p[1] ==> !HasStem(stem)(records[j])))
            && (|p| < 2 ==> first == Aborted)
  {
    var p := Positions(records, HasStem(stem));
    var w := WorkOf(records, stem);
    if |p| >= 2 {
      assert w.urns[0] == records[p[0]].urn && w.texts[0] == records[p[0]].text;
      assert w.urns[1] == records[p[1]].urn && w.index[0] == 1;
      FirstTwoPositions(records, HasStem(stem));
    }
  }

  /** Nothing before the first kept position, or between the first two, is kept. */
  lemma FirstTwoPositions<T>(s: seq<T>, keep: T -> bool)
    requires |Positions(s, keep)| >= 2
    ensures var p := Positions(s, keep);
            && (forall j :: 0 <= j < p[0] ==> !keep(s[j]))
            && (forall j :: p[0] < j < p[1] ==> !keep(s[j]))
  {
    var p := Positions(s, keep);
    PositionsBounds(s, keep);
    assert forall k :: 0 <= k < |p| ==> k == 0 || p[1] <= p[k];
  }

  /** /texts/last on a located work answers from that work. */
  lemma LastOfLocated(works: seq<string>, records: seq<Record>, q: string)
    requires Locate(works, records, q).Found?
    ensures var w := Locate(works, records, q).work;
            Last(works, records, q) == LastOfWork(w, q) && w == WorkOf(records, w.workUrn)
  {
  }

  /**
   * /texts/last answers with the last corpus record of the work (sequence
   * n), whose Previous is the record before it in the work; a work of one
   * node panics.
   */
  lemma LastIsLastRecord(records: seq<Record>, stem: string, q: string)
    ensures var p := Positions(records, HasStem(stem));
            var n := |p|;
            var last := LastOfWork(WorkOf(records, stem), q);
            && (n >= 2 ==>
                  && last == Nodes(q, LastService, [Node(records[p[n - 1]].urn, records[p[n - 1]].text, [records[p[n - 2]].urn], [], n)])
                  && (forall j :: p[n - 1] < j < |records| ==> !HasStem(stem)(records[j]))
                  && (forall j :: p[n - 2] < j < p[n - 1] ==> !HasStem(stem)(records[j])))
            && (n < 2 ==> last == Aborted)
  {
    var p := Positions(records, HasStem(stem));
    var n := |p|;
    var w := WorkOf(records, stem);
    if n >= 2 {
      assert w.urns[n - 1] == records[p[n - 1]].urn && w.texts[n - 1] == records[p[n - 1]].text;
      assert w.urns[n - 2] == records[p[n - 2]].urn && w.index[n - 1] == n;
      LastTwoPositions(records, HasStem(stem));
    }
  }

  /** Nothing after the last kept position, or between the last two, is kept. */
  lemma LastTwoPositions<T>(s: seq<T>, keep: T -> bool)
    requires |Positions(s, keep)| >= 2
    ensures var p := Positions(s, keep);
            var n := |p|;
            && (forall j :: p[n - 1] < j < |s| ==> !keep(s[j]))
            && (forall j :: p[n - 2] < j < p[n - 1] ==> !keep(s[j]))
  {
    var p := Positions(s, keep);
    var n := |p|;
    PositionsBounds(s, keep);
    assert forall k :: 0 <= k < |p| ==> k == n - 1 || p[k] <= p[n - 2];
  }

  // ---------------------------------------------------------------- previous / next

  /**
   * /texts/previous looks at the LAST occurrence of the query in the work:
   * it answers with the node just before it, whose Next is the query itself
   * and whose Previous is set only when that node has a predecessor; at the
   * start of the work it answers with no nodes; a query that is not a node of
   * the work is an Exception.
   */
  lemma PrevNeighbour(w: Work, q: string)
    requires WellFormed(w)
    ensures q !in w.urns ==> PrevOfWork(w, q) == NodeFailure(q, PreviousService, NotFound(q))
    ensures q in w.urns ==>
              var idx := LastIndexOf(w.urns, q);
              var r := PrevOfWork(w, q);
              && r.Reply? && r.response.NodeResponse? && r.response.status == Success
              && (idx == 0 <==> r.response.nodes == [])
              && (idx > 0 ==>
                    && r.response.nodes == [r.response.nodes[0]]
                    && r.response.nodes[0].urn == w.urns[idx - 1]
                    && r.response.nodes[0].sequence == idx
                    && r.response.nodes[0].next == [q]
                    && r.response.nodes[0].previous == if idx >= 2 then [w.urns[idx - 2]] else [])
  {
  }

  /**
   * /texts/next mirrors /texts/previous: the node just after the last
   * occurrence of the query, whose Previous is the query and whose Next is
   * set only when it has a successor; nothing at the end of the work.
   */
  lemma NextNeighbour(w: Work, q: string)
    requires WellFormed(w)
    ensures q !in w.urns ==> NextOfWork(w, q) == NodeFailure(q, NextService, NotFound(q))
    ensures q in w.urns ==>
              var idx := LastIndexOf(w.urns, q);
              var n := |w.urns|;
              var r := NextOfWork(w, q);
              && r.Reply? && r.response.NodeResponse? && r.response.status == Success
              && (idx == n - 1 <==> r.response.nodes == [])
              && (idx < n - 1 ==>
                    && r.response.nodes == [r.response.nodes[0]]
                    && r.response.nodes[0].urn == w.urns[idx + 1]
                    && r.response.nodes[0].sequence == idx + 2
                    && r.response.nodes[0].previous == [q]
                    && r.response.nodes[0].next == if idx + 2 <= n - 1 then [w.urns[idx + 2]] else [])
  {
  }

  /**
   * In a work whose node URNs are distinct, previous and next are inverse
   * steps: next of node i is node i+1 and previous of node i+1 is node i;
   * previous of the first node and next of the last node are empty.
   */
  lemma PrevNextInverse(w: Work, i: nat)
    requires WellFormed(w) && NoDuplicates(w.urns) && i < |w.urns|
    ensures i + 1 < |w.urns| ==>
              && NextOfWork(w, w.urns[i]).response.nodes[0].urn == w.urns[i + 1]
              && PrevOfWork(w, w.urns[i + 1]).response.nodes[0].urn == w.urns[i]
    ensures i == 0 ==> PrevOfWork(w, w.urns[i]) == Nodes(w.urns[i], PreviousService, [])
    ensures i == |w.urns| - 1 ==> NextOfWork(w, w.urns[i]) == Nodes(w.urns[i], NextService, [])
  {
    DistinctLastIndex(w.urns, i);
    if i + 1 < |w.urns| {
      DistinctLastIndex(w.urns, i + 1);
    }
  }

  /** Without duplicates, the last occurrence of the i-th element is i. */
  lemma DistinctLastIndex(s: seq<string>, i: nat)
    requires NoDuplicates(s) && i < |s|
    ensures LastIndexOf(s, s[i]) == i
  {
  }

  // ---------------------------------------------------------------- passage

  /**
   * An exact passage is the single node at the last occurrence of the query:
   * it agrees with the annotated node at that position, except that a
   * missing neighbour is left out instead of being the empty string; a work
   * of one node panics (the start case asks for the second node).
   */
  lemma ExactPassageNode(w: Work, q: string)
    requires WellFormed(w) && q in w.urns
    ensures var idx := LastIndexOf(w.urns, q);
            var a := Annotated(w, idx);
            && (|w.urns| == 1 ==> PassageOfWork(w, q) == Aborted)
            && (|w.urns| >= 2 ==>
                  PassageOfWork(w, q)
                    == Nodes(q, TextsService,
                             [Node(q, a.text,
                                   if idx > 0 then a.previous else [],
                                   if idx < |w.urns| - 1 then a.next else [],
                                   a.sequence)]))
  {
  }

  /**
   * `nodes` are exactly the nodes of `w` matching `q` at `level`, each once,
   * in work order, each annotated with its position and its neighbours.
   */
  predicate LevelNodes(w: Work, q: string, level: nat, nodes: seq<Node>)
    requires WellFormed(w)
  {
    && (forall k :: 0 <= k < |nodes| ==>
          && 1 <= nodes[k].sequence <= |w.urns|
          && LevelMatch(nodes[k].urn, q, level)
          && nodes[k] == Annotated(w, nodes[k].sequence - 1))
    && (forall i :: 0 <= i < |w.urns| && LevelMatch(w.urns[i], q, level) ==>
          exists k :: 0 <= k < |nodes| && nodes[k].sequence == i + 1)
    && (forall k, l :: 0 <= k < l < |nodes| ==> nodes[k].sequence < nodes[l].sequence)
  }

  /**
   * A query that is not a node answers, at the lowest level L at which some
   * node matches, with exactly the nodes matching at L, in work order, each
   * annotated with its position and its neighbours in the work.
   */
  lemma LevelPassage(w: Work, q: string)
    requires WellFormed(w) && q !in w.urns && LowestLevel(w.urns, q) > 0
    ensures var r := PassageOfWork(w, q);
            && r.Reply? && r.response.NodeResponse? && r.response.status == Success
            && LevelNodes(w, q, LowestLevel(w.urns, q), r.response.nodes)
  {
    var level := LowestLevel(w.urns, q);
    LevelBranch(w, q);
    MatchingNodesKept(w, q, level);
  }

  /** The level branch of the /texts handler. */
  lemma LevelBranch(w: Work, q: string)
    requires WellFormed(w) && q !in w.urns && LowestLevel(w.urns, q) > 0
    ensures PassageOfWork(w, q) == Nodes(q, TextsService, MatchingNodes(w, q, LowestLevel(w.urns, q)))
  {
  }

  /** The nodes matching at a level are the annotated matching nodes, each once, in work order. */
  lemma MatchingNodesKept(w: Work, q: string, level: nat)
    requires WellFormed(w)
    ensures LevelNodes(w, q, level, MatchingNodes(w, q, level))
  {
    var keep := MatchesLevel(q, level);
    NodesAtKept(w, keep);
    assert forall x :: keep(x) == LevelMatch(x, q, level);
  }

  /**
   * A range query that is neither a node nor a level match answers with the
   * nodes from the resolved start to the resolved end, each annotated with
   * its 1-based position and its neighbours (the empty string at the ends of
   * the work); a start past end + 1 makes the slice panic.
   */
  lemma RangePassage(w: Work, q: string)
    requires WellFormed(w) && q !in w.urns && LowestLevel(w.urns, q) == 0 && IsRange(q)
    ensures var (s, e) := RangeBounds(w.urns, q);
            var r := PassageOfWork(w, q);
            && (s > e + 1 ==> r == Aborted)
            && (s <= e + 1 ==>
                  && r.Reply? && r.response.NodeResponse? && r.response.status == Success
                  && |r.response.nodes| == e - s + 1
                  && forall k :: 0 <= k < |r.response.nodes| ==>
                       var node := r.response.nodes[k];
                       && node.urn == w.urns[s + k]
                       && node.text == w.texts[s + k]
                       && node.sequence == s + k + 1
                       && node.previous == [if s + k > 0 then w.urns[s + k - 1] else ""]
                       && node.next == [if s + k + 1 < |w.urns| then w.urns[s + k + 1] else ""])
  {
    var (s, e) := RangeBounds(w.urns, q);
    RangeBranch(w, q);
    if s <= e + 1 {
      RangeNodesAdjacent(w, s, e);
    }
  }

  /** A range query that is neither a node nor a level match takes the range branch. */
  lemma RangeBranch(w: Work, q: string)
    requires WellFormed(w) && q !in w.urns && LowestLevel(w.urns, q) == 0 && IsRange(q)
    ensures var (s, e) := RangeBounds(w.urns, q);
            PassageOfWork(w, q) == if s > e + 1 then Aborted else Nodes(q, TextsService, RangeNodes(w, s, e))
  {
  }

  /** Each range node is the work's node at its position, with its adjacent nodes as neighbours. */
  lemma RangeNodesAdjacent(w: Work, s: nat, e: int)
    requires WellFormed(w) && s <= e + 1 <= |w.urns|
    ensures var nodes := RangeNodes(w, s, e);
            && |nodes| == e - s + 1
            && forall k :: 0 <= k < |nodes| ==>
                 && nodes[k].urn == w.urns[s + k]
                 && nodes[k].text == w.texts[s + k]
                 && nodes[k].sequence == s + k + 1
                 && nodes[k].previous == [if s + k > 0 then w.urns[s + k - 1] else ""]
                 && nodes[k].next == [if s + k + 1 < |w.urns| then w.urns[s + k + 1] else ""]
  {
    var nodes := RangeNodes(w, s, e);
    assert forall k :: 0 <= k < |nodes| ==> nodes[k] == Annotated(w, s + k);
  }

  /**
   * The passage handler gives "Could not find node" exactly when the query
   * is not a node, matches at no level and is not a range.
   */
  lemma PassageNotFound(w: Work, q: string)
    requires WellFormed(w)
    ensures PassageOfWork(w, q) == NodeFailure(q, TextsService, NotFound(q)) <==>
            q !in w.urns && LowestLevel(w.urns, q) == 0 && !IsRange(q)
  {
    if q in w.urns {
      var idx := LastIndexOf(w.urns, q);
      assert PassageOfWork(w, q) == ExactPassage(w, q, idx);
    }
  }

  // ---------------------------------------------------------------- /texts/urns against /texts

  /**
   * On a query that is not a range: an exact node gives [q], no match at any
   * level gives "Couldn't find URN.", and otherwise the URN listing is exactly
   * the URNs of the nodes the passage handler returns, and is not empty.
   */
  lemma ReffAgreesWithPassage(w: Work, q: string)
    requires WellFormed(w) && !IsRange(q)
    ensures q in w.urns ==> ReffOfWork(w, q) == Urns(q, [q])
    ensures q !in w.urns && LowestLevel(w.urns, q) == 0 ==>
              ReffOfWork(w, q) == Reply(UrnResponse([q], Exception, UrnsService, CouldNotFindUrn, []))
    ensures q !in w.urns && LowestLevel(w.urns, q) > 0 ==>
              && ReffOfWork(w, q) == Urns(q, UrnsOf(PassageOfWork(w, q).response.nodes))
              && |ReffOfWork(w, q).response.urns| > 0
  {
    var level := LowestLevel(w.urns, q);
    if q !in w.urns && level > 0 {
      MatchingUrns(w, q, level);
      var i :| 0 <= i < |w.urns| && LevelMatch(w.urns[i], q, level);
      SomeKept(w.urns, MatchesLevel(q, level), i);
    }
  }

  /** The handler as written differs from ReffOfWork only on non-range, non-node queries of lowest level 4. */
  lemma AsWrittenDiffersAtLevelFour(w: Work, q: string)
    ensures ReffOfWorkAsWritten(w, q) != ReffOfWork(w, q) ==>
              !IsRange(q) && q !in w.urns && LowestLevel(w.urns, q) == 4
  {
  }

  /** The URNs of the matching nodes are the matching URNs. */
  lemma MatchingUrns(w: Work, q: string, level: nat)
    requires WellFormed(w)
    ensures UrnsOf(MatchingNodes(w, q, level)) == Filter(w.urns, MatchesLevel(q, level))
  {
  }

  /**
   * As written, a query whose lowest matching level is 4 gets Success with
   * an empty URN list, because that branch runs the level-3 pattern, which no
   * node matches; the passage handler returns the matching nodes instead.
   */
  lemma ReffLevelFourEmpty(w: Work, q: string)
    requires WellFormed(w) && !IsRange(q) && q !in w.urns && LowestLevel(w.urns, q) == 4
    ensures ReffOfWorkAsWritten(w, q) == Urns(q, [])
    ensures |PassageOfWork(w, q).response.nodes| > 0
  {
    assert !AnyMatch(w.urns, q, 3);
    NoneKept(w.urns, MatchesLevel(q, 3));
    var i :| 0 <= i < |w.urns| && LevelMatch(w.urns[i], q, 4);
    SomeKept(w.urns, MatchesLevel(q, 4), i);
  }

  /**
   * A concrete case: in a one-node work whose node is
   * `urn:cts:ns:w:1.1.1.1.1`, the query `urn:cts:ns:w:1` matches first at
   * level 4; /texts/urns answers with no URNs while /texts returns the node.
   */
  lemma ReffLevelFourExample(q: string, node: string)
    requires q == "urn:cts:ns:w:1" && node == "urn:cts:ns:w:1.1.1.1.1"
    ensures var w := Work("urn:cts:ns:w", [node], ["text"], [1]);
            && LowestLevel(w.urns, q) == 4
            && ReffOfWorkAsWritten(w, q) == Urns(q, [])
            && |PassageOfWork(w, q).response.nodes| > 0
  {
    var w := Work("urn:cts:ns:w", [node], ["text"], [1]);
    ExampleLevel(q, node);
    ExampleNotRange(q);
    assert q != node by {
      assert |q| != |node|;
    }
    ReffLevelFourEmpty(w, q);
  }

  lemma ExampleNotRange(q: string)
    requires q == "urn:cts:ns:w:1"
    ensures !IsRange(q)
  {
    MakeUrnFields("ns", "w", ["1"]);
    assert MakeUrn("ns", "w", ["1"]) == q;
  }

  /** The query first matches the node at level 4. */
  lemma ExampleLevel(q: string, node: string)
    requires q == "urn:cts:ns:w:1" && node == "urn:cts:ns:w:1.1.1.1.1"
    ensures LowestLevel([node], q) == 4
  {
    var urns := [node];
    ExampleMatch(q, urns[0], ".1.1.1.1");
    assert AnyMatch(urns, q, 4);
    forall depth | 1 <= depth <= 3
      ensures !AnyMatch(urns, q, depth)
    {
      ExampleNoMatch(q, urns[0], ".1.1.1.1", depth);
    }
  }

  lemma ExampleMatch(q: string, node: string, tail: string)
    requires q == "urn:cts:ns:w:1" && node == "urn:cts:ns:w:1.1.1.1.1" && tail == ".1.1.1.1"
    ensures LevelMatch(node, q, 4)
  {
    ExampleSplit(q, node, tail);
    FourLevelTail(".", "1");
    TailSpelled(".", "1", tail);
    QueryThenTail(q, tail, 4);
  }

  lemma ExampleSplit(q: string, node: string, tail: string)
    requires q == "urn:cts:ns:w:1" && node == "urn:cts:ns:w:1.1.1.1.1" && tail == ".1.1.1.1"
    ensures node == q + tail
  {
  }

  lemma TailSpelled(sep: string, word: string, tail: string)
    requires sep == "." && word == "1" && tail == ".1.1.1.1"
    ensures sep + word + sep + word + sep + word + sep + word == tail
  {
  }

  lemma ExampleNoMatch(q: string, node: string, tail: string, depth: nat)
    requires q == "urn:cts:ns:w:1" && node == "urn:cts:ns:w:1.1.1.1.1" && tail == ".1.1.1.1"
    requires depth <= 3
    ensures !LevelMatch(node, q, depth)
  {
    ExampleSplit(q, node, tail);
    assert q[0] == 'u';
    NoSecondU(node[1..]);
    ShallowTails(tail, depth);
    OnlyAtStart(node, q, tail, depth);
  }

  lemma NoSecondU(rest: string)
    requires rest == "rn:cts:ns:w:1.1.1.1.1"
    ensures 'u' !in rest
  {
    assert forall i :: 0 <= i < |rest| ==> rest[i] != 'u';
  }

  /** Separator-then-word strings are level-1 tails; each further `.` and word adds a level. */
  lemma FourLevelTail(sep: string, word: string)
    requires sep == "." && word == "1"
    ensures Tail(sep + word + sep + word + sep + word + sep + word, 4)
  {
    var t1 := sep + word;
    assert t1[..1] == sep && t1[1..] == word;
    assert Tail(t1, 1);
    DeeperTail(t1, '.', word, 1);
    assert t1 + ['.'] + word == t1 + sep + word;
    DeeperTail(t1 + sep + word, '.', word, 2);
    assert t1 + sep + word + ['.'] + word == t1 + sep + word + sep + word;
    DeeperTail(t1 + sep + word + sep + word, '.', word, 3);
    assert t1 + sep + word + sep + word + ['.'] + word == t1 + sep + word + sep + word + sep + word;
  }

  /** `.1.1.1.1` is not a tail of levels 1 to 3: it holds three `.` past its first word character. */
  lemma ShallowTails(t: string, depth: nat)
    requires t == ".1.1.1.1" && depth <= 3
    ensures !Tail(t, depth)
  {
    assert t[1..] == "1.1.1.1" && t[2..] == ".1.1.1";
    NotShallowTail(t, depth);
  }

  /**
   * A node made of a dot-free query and a tail matches the query only at
   * offset 0 when the query's first character occurs nowhere else in it.
   */
  lemma OnlyAtStart(node: string, q: string, tail: string, depth: nat)
    requires node == q + tail && |q| > 0 && '.' !in q && q[0] !in node[1..] && !Tail(tail, depth)
    ensures !LevelMatch(node, q, depth)
  {
    forall i | 0 <= i <= |node| - |q|
      ensures !MatchAt(node, q, depth, i)
    {
      assert node[i..i + |q|][0] == node[i];
      assert i > 0 ==> node[i] in node[1..];
      assert i == 0 ==> node[|q|..] == tail;
    }
  }

  /**
   * On a range query that is neither a node nor a level match, the URN
   * listing and the passage cover the same slice of the work, and the
   * listing holds end - start + 1 URNs in work order.
   */
  lemma RangeReffAgreesWithPassage(w: Work, q: string)
    requires WellFormed(w) && IsRange(q)
    ensures var (s, e) := RangeBounds(w.urns, q);
            && (s > e + 1 ==> ReffOfWork(w, q) == Aborted)
            && (s <= e + 1 ==>
                  && ReffOfWork(w, q).response.urns == w.urns[s..e + 1]
                  && |ReffOfWork(w, q).response.urns| == e - s + 1
                  && (q !in w.urns && LowestLevel(w.urns, q) == 0 ==>
                        ReffOfWork(w, q) == Urns(q, UrnsOf(PassageOfWork(w, q).response.nodes))))
  {
    var (s, e) := RangeBounds(w.urns, q);
    if s <= e + 1 {
      RangeNodeUrns(w, s, e);
    }
  }

  /** The URNs of the range nodes are the slice start..end of the work. */
  lemma RangeNodeUrns(w: Work, s: nat, e: int)
    requires WellFormed(w) && s <= e + 1 <= |w.urns|
    ensures UrnsOf(RangeNodes(w, s, e)) == w.urns[s..e + 1]
  {
    var nodes := RangeNodes(w, s, e);
    forall k | 0 <= k < |nodes|
      ensures UrnsOf(nodes)[k] == w.urns[s..e + 1][k]
    {
      assert nodes[k] == Annotated(w, s + k);
    }
  }
}
