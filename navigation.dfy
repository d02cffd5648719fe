/**
 * Building the nodes of a passage reply: each node carries its URN, text,
 * `Index`, and its neighbours looked up through that `Index`.
 */
module Navigation {
  import opened Collections
  import opened Levels
  import opened Works
  import opened Responses

  /**
   * The node at position `i`, with `Previous` = URN[Index-2] when Index > 1
   * and `Next` = URN[Index] when Index < n, the empty string otherwise. Since
   * Index is the 1-based position, these are the adjacent nodes of the work.
   */
  function Annotated(w: Work, i: nat): (node: Node)
    requires WellFormed(w) && i < |w.urns|
    ensures node.urn == w.urns[i] && node.text == w.texts[i] && node.sequence == i + 1
    ensures node.previous == [if i > 0 then w.urns[i - 1] else ""]
    ensures node.next == [if i + 1 < |w.urns| then w.urns[i + 1] else ""]
  {
    var idx := w.index[i];
    Node(w.urns[i], w.texts[i],
         [if idx > 1 then w.urns[idx - 2] else ""],
         [if idx < |w.urns| then w.urns[idx] else ""],
         idx)
  }

  /** The annotated nodes at the given positions. */
  function NodesAt(w: Work, p: seq<nat>): seq<Node>
    requires WellFormed(w) && forall k :: 0 <= k < |p| ==> p[k] < |w.urns|
  {
    seq(|p|, k requires 0 <= k < |p| => Annotated(w, p[k]))
  }

  /** The annotated nodes matching `e` at `depth`, in work order. */
  function MatchingNodes(w: Work, e: string, depth: nat): seq<Node>
    requires WellFormed(w)
  {
    NodesAt(w, Positions(w.urns, MatchesLevel(e, depth)))
  }

  /** The annotated nodes `start` .. `end`. */
  function RangeNodes(w: Work, start: nat, end: int): seq<Node>
    requires WellFormed(w) && start <= end + 1 <= |w.urns|
  {
    seq(end + 1 - start, k requires 0 <= k < end + 1 - start => Annotated(w, start + k))
  }

  /** Appending a position appends its node. */
  lemma NodesAtSnoc(w: Work, p: seq<nat>, i: nat)
    requires WellFormed(w) && i < |w.urns| && forall k :: 0 <= k < |p| ==> p[k] < |w.urns|
    ensures NodesAt(w, p + [i]) == NodesAt(w, p) + [Annotated(w, i)]
  {
  }

  /** One more position examined: its node is appended when it is kept. */
  lemma NodesAtStep(w: Work, keep: string -> bool, i: nat)
    requires WellFormed(w) && i < |w.urns|
    ensures NodesAt(w, Positions(w.urns[..i + 1], keep))
              == NodesAt(w, Positions(w.urns[..i], keep)) + (if keep(w.urns[i]) then [Annotated(w, i)] else [])
  {
    var before := Positions(w.urns[..i], keep);
    FilterSnoc(w.urns[..i], w.urns[i], keep);
    assert w.urns[..i + 1] == w.urns[..i] + [w.urns[i]];
    if keep(w.urns[i]) {
      NodesAtSnoc(w, before, i);
    }
  }

  /**
   * The nodes at the kept positions are exactly the kept nodes of the work,
   * annotated, in work order.
   */
  lemma NodesAtKept(w: Work, keep: string -> bool)
    requires WellFormed(w)
    ensures var nodes := NodesAt(w, Positions(w.urns, keep));
            && (forall k :: 0 <= k < |nodes| ==>
                  && 1 <= nodes[k].sequence <= |w.urns|
                  && keep(nodes[k].urn)
                  && nodes[k] == Annotated(w, nodes[k].sequence - 1))
            && (forall i :: 0 <= i < |w.urns| && keep(w.urns[i]) ==>
                  exists k :: 0 <= k < |nodes| && nodes[k].sequence == i + 1)
            && (forall k, l :: 0 <= k < l < |nodes| ==> nodes[k].sequence < nodes[l].sequence)
  {
    var p := Positions(w.urns, keep);
    var nodes := NodesAt(w, p);
    forall k | 0 <= k < |nodes|
      ensures && 1 <= nodes[k].sequence <= |w.urns|
              && keep(nodes[k].urn)
              && nodes[k] == Annotated(w, nodes[k].sequence - 1)
    {
      assert nodes[k] == Annotated(w, p[k]);
    }
    forall k, l | 0 <= k < l < |nodes|
      ensures nodes[k].sequence < nodes[l].sequence
    {
      assert nodes[k] == Annotated(w, p[k]) && nodes[l] == Annotated(w, p[l]);
    }
    NodesAtComplete(w, keep);
  }

  /** Every kept node of the work is among the nodes at the kept positions. */
  lemma NodesAtComplete(w: Work, keep: string -> bool)
    requires WellFormed(w)
    ensures var nodes := NodesAt(w, Positions(w.urns, keep));
            forall i :: 0 <= i < |w.urns| && keep(w.urns[i]) ==>
              exists k :: 0 <= k < |nodes| && nodes[k].sequence == i + 1
  {
    var p := Positions(w.urns, keep);
    var nodes := NodesAt(w, p);
    forall i | 0 <= i < |w.urns| && keep(w.urns[i])
      ensures exists k :: 0 <= k < |nodes| && nodes[k].sequence == i + 1
    {
      assert i in p;
      var k :| 0 <= k < |p| && p[k] == i;
      assert nodes[k] == Annotated(w, i);
    }
    assert NodesAt(w, Positions(w.urns, keep)) == nodes;
  }

  /** The `matchingNodes` loop of the passage handler. */
  method AnnotateMatching(w: Work, e: string, depth: nat, flags: seq<bool>) returns (nodes: seq<Node>)
    requires WellFormed(w) && |flags| == |w.urns|
    requires forall i :: 0 <= i < |flags| ==> flags[i] == LevelMatch(w.urns[i], e, depth)
    ensures nodes == MatchingNodes(w, e, depth)
  {
    var keep := MatchesLevel(e, depth);
    nodes := [];
    for i := 0 to |flags|
      invariant nodes == NodesAt(w, Positions(w.urns[..i], keep))
    {
      NodesAtStep(w, keep, i);
      assert keep(w.urns[i]) == flags[i];
      if flags[i] {
        var previousnode := "";
        var nextnode := "";
        if w.index[i] > 1 {
          previousnode := w.urns[w.index[i] - 2];
        }
        if w.index[i] < |w.urns| {
          nextnode := w.urns[w.index[i]];
        }
        assert Node(w.urns[i], w.texts[i], [previousnode], [nextnode], w.index[i]) == Annotated(w, i);
        nodes := nodes + [Node(w.urns[i], w.texts[i], [previousnode], [nextnode], w.index[i])];
      }
    }
    assert w.urns[..|flags|] == w.urns;
  }

  /** The `rangeNodes` loop over the slices URN, Text and Index [start : end+1]. */
  method AnnotateRange(w: Work, start: nat, end: int) returns (nodes: seq<Node>)
    requires WellFormed(w) && start <= end + 1 <= |w.urns|
    ensures nodes == RangeNodes(w, start, end)
  {
    var rangeUrn := w.urns[start..end + 1];
    var rangeText := w.texts[start..end + 1];
    var rangeIndex := w.index[start..end + 1];
    nodes := [];
    for i := 0 to |rangeUrn|
      invariant |nodes| == i
      invariant forall k :: 0 <= k < i ==> nodes[k] == Annotated(w, start + k)
    {
      var previousnode := "";
      var nextnode := "";
      if rangeIndex[i] > 1 {
        previousnode := w.urns[rangeIndex[i] - 2];
      }
      if rangeIndex[i] < |w.urns| {
        nextnode := w.urns[rangeIndex[i]];
      }
      nodes := nodes + [Node(rangeUrn[i], rangeText[i], [previousnode], [nextnode], rangeIndex[i])];
    }
  }
}
