/**
 * CTS URNs: `urn:cts:<namespace>:<work>[:<passage>]`. Validation
 * (`isCTSURN`), the range test (`isRange`), the split into work stem and
 * passage reference (`splitCTS`), and the crop to the first four fields that
 * every handler uses to find the work of a URN.
 */
module CtsUrn {
  import opened Strings

  /** The colon-separated fields of a URN, as strings.Split(s, ":") gives them. */
  function Fields(s: string): seq<string>
  {
    Split(s, ':')
  }

  /** isCTSURN: four or five fields, the first two being `urn` and `cts`. */
  predicate IsCtsUrn(s: string)
  {
    var test := Fields(s);
    if |test| < 4 then false
    else if |test| > 5 then false
    else if test[0] != "urn" then false
    else if test[1] != "cts" then false
    else true
  }

  /** isRange: a fifth field exists and contains a hyphen. */
  predicate IsRange(s: string)
  {
    var test := Fields(s);
    if |test| < 5 then false
    else if '-' in test[4] then true
    else false
  }

  /** A URN has a work stem when it has at least four fields. */
  predicate Croppable(s: string)
  {
    |Fields(s)| >= 4
  }

  /**
   * strings.Join(strings.Split(s, ":")[0:4], ":"), the work a URN belongs to;
   * Go panics on a URN with fewer than four fields.
   */
  function Crop(s: string): (stem: string)
    requires Croppable(s)
    ensures Fields(stem) == Fields(s)[..4]
    ensures stem == s || stem + ":" <= s
  {
    var f := Fields(s);
    SplitJoin(f[..4], ':');
    JoinSplit(s, ':');
    if |f| > 4 then
      JoinAppend(f[..4], f[4..], ':');
      assert f[..4] + f[4..] == f;
      Join(f[..4], ':')
    else
      assert f[..4] == f;
      Join(f[..4], ':')
  }

  datatype Cts = Cts(stem: string, reference: string)

  /** splitCTS: the work stem and the passage reference; Go panics below five fields. */
  function SplitCts(s: string): (c: Cts)
    requires |Fields(s)| >= 5
    ensures Fields(c.stem) == Fields(s)[..4]
    ensures c.reference == Fields(s)[4] && ':' !in c.reference
    ensures |Fields(s)| == 5 ==> c.stem + ":" + c.reference == s
  {
    var f := Fields(s);
    SplitJoin(f[..4], ':');
    JoinSplit(s, ':');
    if |f| == 5 then
      JoinAppend(f[..4], f[4..], ':');
      assert f[..4] + f[4..] == f;
      Cts(Join(f[..4], ':'), f[4])
    else
      Cts(Join(f[..4], ':'), f[4])
  }

  /** The URN `urn:cts:<namespace>:<work>` followed by `:<passage>` when a passage is given. */
  function MakeUrn(namespace: string, work: string, passage: seq<string>): string
    requires |passage| <= 1
  {
    "urn:cts:" + namespace + ":" + work + (if |passage| == 1 then ":" + passage[0] else "")
  }

  /** The fields of a URN built from colon-free parts are those parts. */
  lemma MakeUrnFields(namespace: string, work: string, passage: seq<string>)
    requires |passage| <= 1
    requires ':' !in namespace && ':' !in work && (|passage| == 1 ==> ':' !in passage[0])
    ensures Fields(MakeUrn(namespace, work, passage)) == ["urn", "cts", namespace, work] + passage
  {
    var fields := ["urn", "cts", namespace, work] + passage;
    forall i | 0 <= i < |fields|
      ensures ':' !in fields[i]
    {
      if i == 0 { assert fields[0] == "urn"; }
      if i == 1 { assert fields[1] == "cts"; }
    }
    SplitJoin(fields, ':');
    MakeUrnJoin(namespace, work, passage);
  }

  /** Joining the parts of a URN with `:` builds it. */
  lemma MakeUrnJoin(namespace: string, work: string, passage: seq<string>)
    requires |passage| <= 1
    ensures Join(["urn", "cts", namespace, work] + passage, ':') == MakeUrn(namespace, work, passage)
  {
    JoinParts("urn", "cts", namespace, work, passage);
    assert "urn" + ":" + "cts" + ":" == "urn:cts:";
  }

  /** Joining four fields and an optional fifth with `:`. */
  lemma JoinParts(a: string, b: string, c: string, d: string, passage: seq<string>)
    requires |passage| <= 1
    ensures Join([a, b, c, d] + passage, ':')
              == a + ":" + b + ":" + c + ":" + d + (if |passage| == 1 then ":" + passage[0] else "")
  {
    var tail := if |passage| == 1 then ":" + passage[0] else "";
    var last := [d] + passage;
    JoinLast(d, passage);
    JoinCons(c, last, ':');
    JoinCons(b, [c] + last, ':');
    JoinCons(a, [b] + ([c] + last), ':');
    ConsFour(a, b, c, d, passage);
    assert [':'] == ":";
    Regroup(a, b, c, d, tail, ":");
  }

  /** The last field of a URN, with the passage after it when there is one. */
  lemma JoinLast(d: string, passage: seq<string>)
    requires |passage| <= 1
    ensures Join([d] + passage, ':') == d + (if |passage| == 1 then ":" + passage[0] else "")
  {
    if |passage| == 1 {
      JoinCons(d, passage, ':');
      assert [':'] == ":";
      Assoc(d, ":", passage[0]);
    } else {
      assert [d] + passage == [d];
      assert d + "" == d;
    }
  }

  lemma ConsFour<T>(a: T, b: T, c: T, d: T, rest: seq<T>)
    ensures [a, b, c, d] + rest == [a] + ([b] + ([c] + ([d] + rest)))
  {
  }

  /** Regrouping a chain of concatenations to the left. */
  lemma Regroup(a: string, b: string, c: string, d: string, t: string, s: string)
    ensures a + s + (b + s + (c + s + (d + t))) == a + s + b + s + c + s + d + t
  {
    Assoc(c + s, d, t);
    Assoc(b + s, c + s + d, t);
    Assoc(b + s, c + s, d);
    Assoc(b + s, c, s);
    Assoc(a + s, b + s + c + s + d, t);
    Assoc(a + s, b + s + c + s, d);
    Assoc(a + s, b + s + c, s);
    Assoc(a + s, b + s, c);
    Assoc(a + s, b, s);
  }

  /** A cropped URN with ":" appended has the URN's first four fields and an empty fifth one. */
  lemma CropColonFields(s: string)
    requires Croppable(s)
    ensures Fields(Crop(s) + ":") == Fields(s)[..4] + [""]
  {
    var stem := Crop(s);
    SplitAppend(stem, "", ':');
    assert stem + ":" == stem + [':'] + "";
  }

  /** Two strings with the same fields are equal. */
  lemma FieldsDetermine(s: string, t: string)
    requires Fields(s) == Fields(t)
    ensures s == t
  {
    JoinSplit(s, ':');
    JoinSplit(t, ':');
  }

  /** isCTSURN accepts exactly the URNs built from colon-free parts (one direction). */
  lemma MakeUrnIsCts(namespace: string, work: string, passage: seq<string>)
    requires |passage| <= 1
    requires ':' !in namespace && ':' !in work && (|passage| == 1 ==> ':' !in passage[0])
    ensures IsCtsUrn(MakeUrn(namespace, work, passage))
  {
    MakeUrnFields(namespace, work, passage);
  }

  /** isCTSURN accepts exactly the URNs built from colon-free parts (the other direction). */
  lemma CtsUrnIsMade(s: string)
    requires IsCtsUrn(s)
    ensures var f := Fields(s);
      s == MakeUrn(f[2], f[3], f[4..]) && ':' !in f[2] && ':' !in f[3]
  {
    var f := Fields(s);
    JoinSplit(s, ':');
    assert ["urn", "cts", f[2], f[3]] + f[4..] == f;
    MakeUrnFields(f[2], f[3], f[4..]);
    JoinSplit(MakeUrn(f[2], f[3], f[4..]), ':');
  }

  /** A range reference splits on `-` into at least two pieces, so `ctsrange[1]` exists. */
  lemma RangeHasTwoPieces(s: string)
    requires IsRange(s)
    ensures |Split(SplitCts(s).reference, '-')| >= 2
  {
    var reference := SplitCts(s).reference;
    JoinSplit(reference, '-');
    assert '-' in Join(Split(reference, '-'), '-');
  }

  /**
   * The start and end URNs of a range: the query's stem followed by the
   * first and second hyphen-separated pieces of its reference (any further
   * pieces are ignored).
   */
  function RangeEndpoints(q: string): (ends: (string, string))
    requires IsRange(q)
    ensures var pieces := Split(SplitCts(q).reference, '-');
      && |pieces| >= 2
      && Fields(ends.0) == Fields(q)[..4] + [pieces[0]]
      && Fields(ends.1) == Fields(q)[..4] + [pieces[1]]
  {
    var c := SplitCts(q);
    RangeHasTwoPieces(q);
    var pieces := Split(c.reference, '-');
    assert ':' !in pieces[0] && ':' !in pieces[1] by {
      JoinSplit(c.reference, '-');
      PiecesInside(pieces, '-', ':');
    }
    SplitAppend(c.stem, pieces[0], ':');
    SplitAppend(c.stem, pieces[1], ':');
    SplitNoSeparator(pieces[0], ':');
    SplitNoSeparator(pieces[1], ':');
    (c.stem + ":" + pieces[0], c.stem + ":" + pieces[1])
  }

  /** A character absent from a join is absent from every joined field. */
  lemma {:induction false} PiecesInside(fields: seq<string>, sep: char, c: char)
    requires |fields| >= 1 && c !in Join(fields, sep)
    ensures forall i :: 0 <= i < |fields| ==> c !in fields[i]
    decreases |fields|
  {
    if |fields| > 1 {
      PiecesInside(fields[1..], sep, c);
      forall i | 1 <= i < |fields|
        ensures c !in fields[i]
      {
        assert fields[i] == fields[1..][i - 1];
      }
    }
  }
}
