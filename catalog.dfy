/**
 * The catalog: the records of the `#!ctscatalog` block, filtered by URN
 * validity, and the /catalog handler, which checks whether the work of a
 * query is registered or lists every registered URN.
 */
module Catalog {
  import opened Collections
  import opened CtsUrn
  import opened Responses

  /** One catalog record; `lang` is the eighth field of 0.8 and empty in the seven-field revisions. */
  datatype CatalogEntry = CatalogEntry(
    urn: string,
    citationScheme: string,
    groupName: string,
    workTitle: string,
    versionLabel: string,
    exemplarLabel: string,
    online: string,
    lang: string)

  const CatalogService := "/catalog"
  const NoUrnSpecified := "No URN specified. Printing URNs in catalog"

  /** The entry's URN passes isCTSURN. */
  function ValidEntry(): CatalogEntry -> bool
  {
    (e: CatalogEntry) => IsCtsUrn(e.urn)
  }

  /** What ParseCatalog keeps: every record in 0.1, the records with a valid URN afterwards. */
  function Kept(rev: Revision, rows: seq<CatalogEntry>): seq<CatalogEntry>
  {
    if rev == V01 then rows else Filter(rows, ValidEntry())
  }

  /** One more row is kept when the revision keeps everything or its URN is valid. */
  lemma KeptSnoc(rev: Revision, rows: seq<CatalogEntry>, row: CatalogEntry)
    ensures Kept(rev, rows + [row]) == Kept(rev, rows) + (if rev == V01 || IsCtsUrn(row.urn) then [row] else [])
  {
    FilterSnoc(rows, row, ValidEntry());
  }

  lemma KeptStep(rev: Revision, rows: seq<CatalogEntry>, i: nat)
    requires i < |rows|
    ensures Kept(rev, rows[..i + 1]) == Kept(rev, rows[..i]) + (if rev == V01 || IsCtsUrn(rows[i].urn) then [rows[i]] else [])
  {
    assert rows[..i + 1] == rows[..i] + [rows[i]];
    KeptSnoc(rev, rows[..i], rows[i]);
  }

  /** The record loop of ParseCatalog over the already-read CSV rows. */
  method ParseCatalog(rev: Revision, rows: seq<CatalogEntry>) returns (entries: seq<CatalogEntry>)
    ensures entries == Kept(rev, rows)
  {
    entries := [];
    for i := 0 to |rows|
      invariant entries == Kept(rev, rows[..i])
    {
      var entry := rows[i];
      KeptStep(rev, rows, i);
      if rev == V01 {
        entries := entries + [entry];
      } else if IsCtsUrn(entry.urn) {
        entries := entries + [entry];
      }
    }
    assert rows[..|rows|] == rows;
  }

  /**
   * From 0.3 on, ParseCatalog keeps, in input order, exactly the records
   * whose URN is a valid CTS URN; 0.1 keeps every record.
   */
  lemma KeptEntries(rev: Revision, rows: seq<CatalogEntry>)
    ensures rev == V01 ==> Kept(rev, rows) == rows
    ensures rev != V01 ==>
              var kept := Kept(rev, rows);
              var p := Positions(rows, ValidEntry());
              && |kept| == |p|
              && (forall k :: 0 <= k < |kept| ==> kept[k] == rows[p[k]] && IsCtsUrn(kept[k].urn))
              && (forall k, l :: 0 <= k < l < |p| ==> p[k] < p[l])
              && (forall j :: 0 <= j < |rows| ==> (IsCtsUrn(rows[j].urn) <==> j in p))
  {
    if rev != V01 {
      var p := Positions(rows, ValidEntry());
      forall j | 0 <= j < |rows| && j in p
        ensures IsCtsUrn(rows[j].urn)
      {
        var k :| 0 <= k < |p| && p[k] == j;
        assert ValidEntry()(rows[p[k]]);
      }
    }
  }

  /** The URN of every entry. */
  function EntryUrns(entries: seq<CatalogEntry>): (urns: seq<string>)
    ensures |urns| == |entries|
  {
    seq(|entries|, i requires 0 <= i < |entries| => entries[i].urn)
  }

  /** The `urns` loop of ReturnCatalog. */
  method CollectUrns(entries: seq<CatalogEntry>) returns (urns: seq<string>)
    ensures urns == EntryUrns(entries)
  {
    urns := [];
    for i := 0 to |entries|
      invariant urns == EntryUrns(entries[..i])
    {
      urns := urns + [entries[i].urn];
    }
    assert entries[..|entries|] == entries;
  }

  /**
   * ReturnCatalog, given the de-duplicated URN list `urnList`.
   * 0.1 validates the raw query (answering under "/texts/urns") and writes
   * nothing otherwise. Later revisions crop a non-empty query to its work
   * plus ":" (a query of fewer than four fields panics; 0.8 recovers),
   * validate the cropped query, and test it for membership.
   */
  function CatalogReply(rev: Revision, urnList: seq<string>, q: string): Reply
  {
    if rev == V01 then
      if q != "" && !IsCtsUrn(q) then Reply(NodeResponse([q], Exception, "/texts/urns", q + " is not valid CTS.", []))
      else Silent
    else if q == "" then Reply(CatalogResponse(Success, CatalogService, NoUrnSpecified, urnList))
    else if !Croppable(q) then
      if rev == V08 then Recovered(Aborted, [q], CatalogService) else Aborted
    else
      var c := Crop(q) + ":";
      if !IsCtsUrn(c) then Reply(NodeResponse([c], Exception, CatalogService, c + " is not valid CTS.", []))
      else if c in urnList then Reply(CatalogResponse(Success, CatalogService, c + " is in the CTS Catalog.", []))
      else Reply(CatalogResponse(Exception, CatalogService, c + " is not in the CTS Catalog. Printing URNs in catalog", urnList))
  }

  /** The registered URNs, each once, in some order. */
  predicate ListsCatalog(urnList: seq<string>, rev: Revision, rows: seq<CatalogEntry>)
  {
    IsDedup(urnList, EntryUrns(Kept(rev, rows)))
  }

  method ReturnCatalog(rev: Revision, rows: seq<CatalogEntry>, q: string) returns (reply: Reply)
    ensures exists urnList :: ListsCatalog(urnList, rev, rows) && reply == CatalogReply(rev, urnList, q)
  {
    var urnList := Dedup(EntryUrns(Kept(rev, rows)));
    if rev == V01 {
      if q != "" {
        if !IsCtsUrn(q) {
          reply := Reply(NodeResponse([q], Exception, "/texts/urns", q + " is not valid CTS.", []));
          assert ListsCatalog(urnList, rev, rows) && reply == CatalogReply(rev, urnList, q);
          return;
        }
        var entries := ParseCatalog(rev, rows);
        var urns := CollectUrns(entries);
        urnList := RemoveDuplicatesUnordered(urns);
      }
      reply := Silent;
      assert ListsCatalog(urnList, rev, rows) && reply == CatalogReply(rev, urnList, q);
      return;
    }
    if q != "" {
      if !Croppable(q) {
        reply := Aborted;
        if rev == V08 {
          reply := Recovered(reply, [q], CatalogService);
        }
        assert ListsCatalog(urnList, rev, rows) && reply == CatalogReply(rev, urnList, q);
        return;
      }
      var requestUrn := Crop(q) + ":";
      if !IsCtsUrn(requestUrn) {
        reply := Reply(NodeResponse([requestUrn], Exception, CatalogService, requestUrn + " is not valid CTS.", []));
        assert ListsCatalog(urnList, rev, rows) && reply == CatalogReply(rev, urnList, q);
        return;
      }
      var entries := ParseCatalog(rev, rows);
      var urns := CollectUrns(entries);
      urnList := RemoveDuplicatesUnordered(urns);
      var member := Contains(urnList, requestUrn);
      if member {
        reply := Reply(CatalogResponse(Success, CatalogService, requestUrn + " is in the CTS Catalog.", []));
      } else {
        reply := Reply(CatalogResponse(Exception, CatalogService, requestUrn + " is not in the CTS Catalog. Printing URNs in catalog", urnList));
      }
    } else {
      var entries := ParseCatalog(rev, rows);
      var urns := CollectUrns(entries);
      urnList := RemoveDuplicatesUnordered(urns);
      reply := Reply(CatalogResponse(Success, CatalogService, NoUrnSpecified, urnList));
    }
    assert ListsCatalog(urnList, rev, rows) && reply == CatalogReply(rev, urnList, q);
  }

  /**
   * The cropped query is valid exactly when the query starts with the fields
   * "urn" and "cts": cropping leaves four fields and ":" adds an empty fifth.
   */
  lemma CroppedQueryValid(q: string)
    requires Croppable(q)
    ensures IsCtsUrn(Crop(q) + ":") <==> Fields(q)[0] == "urn" && Fields(q)[1] == "cts"
  {
    CropColonFields(q);
  }

  /**
   * From 0.3 on, a query naming a valid work gets Success exactly when its
   * work followed by ":" is the URN of a kept catalog entry, and otherwise an
   * Exception carrying every registered URN once; an empty query lists them
   * with Success.
   */
  lemma CatalogLookup(rev: Revision, urnList: seq<string>, rows: seq<CatalogEntry>, q: string)
    requires rev != V01 && ListsCatalog(urnList, rev, rows)
    ensures q == "" ==> CatalogReply(rev, urnList, q) == Reply(CatalogResponse(Success, CatalogService, NoUrnSpecified, urnList))
    ensures q != "" && Croppable(q) && IsCtsUrn(Crop(q) + ":") ==>
              var c := Crop(q) + ":";
              var r := CatalogReply(rev, urnList, q);
              && r.Reply? && r.response.CatalogResponse?
              && (r.response.status == Success <==>
                    exists k :: 0 <= k < |Kept(rev, rows)| && Kept(rev, rows)[k].urn == c)
              && (r.response.status == Exception ==> r.response.urns == urnList)
  {
    if q != "" && Croppable(q) && IsCtsUrn(Crop(q) + ":") {
      var c := Crop(q) + ":";
      var urns := EntryUrns(Kept(rev, rows));
      if c in urnList {
        var k :| 0 <= k < |urns| && urns[k] == c;
        assert Kept(rev, rows)[k].urn == c;
      } else {
        forall k | 0 <= k < |Kept(rev, rows)|
          ensures Kept(rev, rows)[k].urn != c
        {
          assert urns[k] in urnList;
        }
      }
    }
  }

  /**
   * Membership is reflexive for entry URNs of the form `urn:cts:ns:work:`
   * (five fields, the last one empty): such an entry is found by its own URN.
   */
  lemma CatalogReflexive(rev: Revision, urnList: seq<string>, rows: seq<CatalogEntry>, k: nat)
    requires rev != V01 && ListsCatalog(urnList, rev, rows)
    requires k < |Kept(rev, rows)|
    requires |Fields(Kept(rev, rows)[k].urn)| == 5 && Fields(Kept(rev, rows)[k].urn)[4] == ""
    ensures var u := Kept(rev, rows)[k].urn;
            CatalogReply(rev, urnList, u) == Reply(CatalogResponse(Success, CatalogService, u + " is in the CTS Catalog.", []))
  {
    var u := Kept(rev, rows)[k].urn;
    CropColonFields(u);
    assert Fields(u) == Fields(u)[..4] + [""];
    FieldsDetermine(Crop(u) + ":", u);
    KeptEntries(rev, rows);
    assert EntryUrns(Kept(rev, rows))[k] == u;
    assert u != "";
  }

  /**
   * An entry URN of four fields (no trailing ":") is looked up as that URN
   * followed by ":", so it is found only if that longer URN is registered too.
   */
  lemma FourFieldLookup(rev: Revision, urnList: seq<string>, u: string)
    requires rev != V01 && |Fields(u)| == 4 && Fields(u)[0] == "urn" && Fields(u)[1] == "cts"
    ensures CatalogReply(rev, urnList, u).response.status == Success <==> u + ":" in urnList
  {
    assert Fields(Crop(u)) == Fields(u);
    FieldsDetermine(Crop(u), u);
    CroppedQueryValid(u);
    assert u != "";
  }

  /**
   * So membership is not reflexive for such URNs: a catalog holding only the
   * entry `urn:cts:ns:work` does not find that entry by its own URN.
   */
  lemma FourFieldEntryNotFound(rev: Revision, urnList: seq<string>, e: CatalogEntry)
    requires rev != V01 && |Fields(e.urn)| == 4 && IsCtsUrn(e.urn)
    requires ListsCatalog(urnList, rev, [e])
    ensures CatalogReply(rev, urnList, e.urn).response.status == Exception
  {
    SingleEntryUrns(rev, e);
    assert forall i :: 0 <= i < |urnList| ==> urnList[i] == e.urn;
    assert |e.urn + ":"| != |e.urn|;
    FourFieldLookup(rev, urnList, e.urn);
  }

  /** A one-row catalog whose URN is valid registers exactly that URN. */
  lemma SingleEntryUrns(rev: Revision, e: CatalogEntry)
    requires IsCtsUrn(e.urn)
    ensures EntryUrns(Kept(rev, [e])) == [e.urn]
  {
    KeptSnoc(rev, [], e);
    assert [] + [e] == [e];
  }

  /** 0.1 writes a response only for a non-empty query that is not valid CTS. */
  lemma EarlyCatalogSilent(urnList: seq<string>, q: string)
    ensures CatalogReply(V01, urnList, q) != Silent <==> q != "" && !IsCtsUrn(q)
  {
  }
}
