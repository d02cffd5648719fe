/**
 * Work discovery and selection, shared by every /texts handler: validate the
 * query, crop every node URN to its work stem, de-duplicate the stems, pick
 * the stem the query belongs to, and collect that work's nodes in corpus
 * order with a 1-based running index.
 */
module Works {
  import opened Strings
  import opened Collections
  import opened CtsUrn

  /** One row of the corpus: a node URN and its text. */
  datatype Record = Record(urn: string, text: string)

  /** The nodes of one work, in corpus order, with their 1-based `Index`. */
  datatype Work = Work(workUrn: string, urns: seq<string>, texts: seq<string>, index: seq<int>)

  /** Parallel slices, and `Index` counting 1, 2, 3, ... */
  predicate WellFormed(w: Work)
  {
    && |w.texts| == |w.urns|
    && |w.index| == |w.urns|
    && forall i :: 0 <= i < |w.index| ==> w.index[i] == i + 1
  }

  predicate AllCroppable(records: seq<Record>)
  {
    forall i :: 0 <= i < |records| ==> Croppable(records[i].urn)
  }

  /** The stem of every record, in corpus order (the `works` slice before de-duplication). */
  function Crops(records: seq<Record>): (crops: seq<string>)
    requires AllCroppable(records)
    ensures |crops| == |records|
  {
    seq(|records|, i requires 0 <= i < |records| => Crop(records[i].urn))
  }

  /** The record belongs to the work `stem`. */
  function HasStem(stem: string): Record -> bool
  {
    (r: Record) => Croppable(r.urn) && Crop(r.urn) == stem
  }

  /**
   * The stem-selection test of the handlers:
   * strings.Contains(q, S) && (q == S || strings.Contains(q, S + ":")).
   */
  predicate Selects(stem: string, q: string)
  {
    Strings.Contains(q, stem) && (q == stem || Strings.Contains(q, stem + ":"))
  }

  /** The first conjunct of the test is implied by the second: S is chosen when q == S or q contains S + ":". */
  lemma SelectsIff(stem: string, q: string)
    ensures Selects(stem, q) <==> q == stem || Strings.Contains(q, stem + ":")
  {
    if Strings.Contains(q, stem + ":") {
      ContainsPrefixOfNeedle(q, stem, ":");
    }
    if q == stem {
      assert stem <= q;
    }
  }

  /**
   * `workindex`: one more than the position of the LAST stem the query
   * selects, or 0 when it selects none.
   */
  function StemIndex(works: seq<string>, q: string): (k: nat)
    ensures k <= |works|
    ensures k > 0 ==> Selects(works[k - 1], q) && forall j :: k <= j < |works| ==> !Selects(works[j], q)
    ensures k == 0 ==> forall j :: 0 <= j < |works| ==> !Selects(works[j], q)
    decreases |works|
  {
    if |works| == 0 then 0
    else if Selects(works[|works| - 1], q) then |works|
    else
      var front := works[..|works| - 1];
      assert forall j :: 0 <= j < |front| ==> front[j] == works[j];
      StemIndex(front, q)
  }

  /** The loop that sets `workindex = i + 1` at every stem the query selects. */
  method FindWorkIndex(works: seq<string>, q: string) returns (workindex: nat)
    ensures workindex == StemIndex(works, q)
  {
    workindex := 0;
    for i := 0 to |works|
      invariant workindex == StemIndex(works[..i], q)
    {
      assert works[..i + 1][..i] == works[..i];
      if Strings.Contains(q, works[i]) {
        if q == works[i] {
          workindex := i + 1;
        } else if Strings.Contains(q, works[i] + ":") {
          workindex := i + 1;
        }
      }
    }
    assert works[..|works|] == works;
  }

  /**
   * The work `stem`: every record whose stem it is, in corpus order, with
   * `Index` running from 1 (the `runindex` of the handlers).
   */
  function WorkOf(records: seq<Record>, stem: string): (w: Work)
    ensures WellFormed(w) && w.workUrn == stem
    ensures Gathers(records, stem, w)
    decreases |records|
  {
    if |records| == 0 then Work(stem, [], [], [])
    else
      var last := records[|records| - 1];
      var front := records[..|records| - 1];
      var w := WorkOf(front, stem);
      var r := if Croppable(last.urn) && Crop(last.urn) == stem then
                 Work(stem, w.urns + [last.urn], w.texts + [last.text], w.index + [|w.urns| + 1])
               else w;
      GathersSnoc(front, last, stem, w, r);
      assert records == front + [last];
      r
  }

  /** `w` holds, in order, the URN and text of every record of `records` whose stem is `stem`. */
  predicate Gathers(records: seq<Record>, stem: string, w: Work)
  {
    var p := Positions(records, HasStem(stem));
    && |w.urns| == |p| && |w.texts| == |p|
    && forall k :: 0 <= k < |p| ==> w.urns[k] == records[p[k]].urn && w.texts[k] == records[p[k]].text
  }

  /** One more record: it is appended to the work exactly when its stem is the work's. */
  lemma GathersSnoc(front: seq<Record>, last: Record, stem: string, w: Work, r: Work)
    requires WellFormed(w) && w.workUrn == stem && Gathers(front, stem, w)
    requires r == if HasStem(stem)(last) then
                    Work(stem, w.urns + [last.urn], w.texts + [last.text], w.index + [|w.urns| + 1])
                  else w
    ensures WellFormed(r) && r.workUrn == stem && Gathers(front + [last], stem, r)
  {
    var records := front + [last];
    var p := Positions(front, HasStem(stem));
    var q := Positions(records, HasStem(stem));
    FilterSnoc(front, last, HasStem(stem));
    forall k | 0 <= k < |p|
      ensures q[k] == p[k] && records[p[k]] == front[p[k]]
    {
    }
    if HasStem(stem)(last) {
      assert q[|p|] == |front|;
    }
  }

  /** The loop that appends URN, text and the running index of every record of the chosen work. */
  method BuildWork(records: seq<Record>, stem: string) returns (w: Work)
    requires AllCroppable(records)
    ensures w == WorkOf(records, stem)
  {
    var urns: seq<string> := [];
    var texts: seq<string> := [];
    var index: seq<int> := [];
    var runindex := 0;
    for i := 0 to |records|
      invariant Work(stem, urns, texts, index) == WorkOf(records[..i], stem)
      invariant runindex == |urns|
    {
      assert records[..i + 1][..i] == records[..i];
      if Crop(records[i].urn) == stem {
        runindex := runindex + 1;
        urns := urns + [records[i].urn];
        texts := texts + [records[i].text];
        index := index + [runindex];
      }
    }
    assert records[..|records|] == records;
    w := Work(stem, urns, texts, index);
  }

  /** The `works` loop: crop every URN in place; Go panics on the first one with fewer than four fields. */
  method CropUrns(records: seq<Record>) returns (works: seq<string>, ok: bool)
    ensures ok <==> AllCroppable(records)
    ensures ok ==> works == Crops(records)
  {
    works := seq(|records|, i requires 0 <= i < |records| => records[i].urn);
    for i := 0 to |records|
      invariant |works| == |records|
      invariant forall j :: 0 <= j < i ==> Croppable(records[j].urn) && works[j] == Crop(records[j].urn)
    {
      if !Croppable(records[i].urn) {
        return works, false;
      }
      works := works[i := Crop(records[i].urn)];
    }
    ok := true;
  }

  /** The outcome of locating the work of a query. */
  datatype Lookup =
    | NotCts            // the query fails isCTSURN
    | Crashed           // a corpus URN has fewer than four fields: Go panics
    | NoWork            // no stem is selected: "No results for ..."
    | Found(work: Work)

  /** The de-duplicated stem list a handler may have computed, in whatever order. */
  predicate StemsFor(works: seq<string>, records: seq<Record>, q: string)
  {
    IsCtsUrn(q) && AllCroppable(records) ==> IsDedup(works, Crops(records))
  }

  /** Where the handlers get to, given the de-duplicated stem list `works`. */
  function Locate(works: seq<string>, records: seq<Record>, q: string): (lookup: Lookup)
    ensures lookup.Found? ==> WellFormed(lookup.work) && lookup.work == WorkOf(records, lookup.work.workUrn)
  {
    if !IsCtsUrn(q) then NotCts
    else if !AllCroppable(records) then Crashed
    else
      var k := StemIndex(works, q);
      if k == 0 then NoWork else Found(WorkOf(records, works[k - 1]))
  }

  /** The common prologue of the /texts handlers. */
  method LocateWork(records: seq<Record>, q: string) returns (lookup: Lookup, works: seq<string>)
    ensures StemsFor(works, records, q)
    ensures lookup == Locate(works, records, q)
  {
    works := [];
    if !IsCtsUrn(q) {
      return NotCts, works;
    }
    var crops, ok := CropUrns(records);
    if !ok {
      return Crashed, works;
    }
    works := RemoveDuplicatesUnordered(crops);
    lookup := SelectWork(records, works, q);
  }

  /** Pick the stem and build its work. */
  method SelectWork(records: seq<Record>, works: seq<string>, q: string) returns (lookup: Lookup)
    requires IsCtsUrn(q) && AllCroppable(records)
    ensures lookup == Locate(works, records, q)
  {
    var workindex := FindWorkIndex(works, q);
    if workindex == 0 {
      return NoWork;
    }
    var w := BuildWork(records, works[workindex - 1]);
    lookup := Found(w);
    LocateIsFound(works, records, q);
  }

  lemma LocateIsFound(works: seq<string>, records: seq<Record>, q: string)
    requires IsCtsUrn(q) && AllCroppable(records) && StemIndex(works, q) > 0
    ensures Locate(works, records, q) == Found(WorkOf(records, works[StemIndex(works, q) - 1]))
  {
  }

  /**
   * A work is found exactly when some corpus stem is selected by the query,
   * and then it is the work of a selected stem and holds at least one node.
   */
  lemma LocateFound(works: seq<string>, records: seq<Record>, q: string)
    requires StemsFor(works, records, q) && IsCtsUrn(q) && AllCroppable(records)
    ensures Locate(works, records, q).Found? <==>
            exists j :: 0 <= j < |records| && Selects(Crop(records[j].urn), q)
    ensures Locate(works, records, q).Found? ==>
            var w := Locate(works, records, q).work;
            Selects(w.workUrn, q) && w.workUrn in Crops(records) && |w.urns| >= 1
  {
    var crops := Crops(records);
    var k := StemIndex(works, q);
    if k > 0 {
      var stem := works[k - 1];
      assert stem in crops;
      var j :| 0 <= j < |crops| && crops[j] == stem;
      assert HasStem(stem)(records[j]);
      assert j in Positions(records, HasStem(stem));
    } else {
      forall j | 0 <= j < |records|
        ensures !Selects(Crop(records[j].urn), q)
      {
        assert crops[j] in works;
      }
    }
  }
}
