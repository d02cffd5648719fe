/**
 * The parts of Go's `strings` package the citation service relies on:
 * `Split` and `Join` on a one-character separator, and `Contains`.
 */
module Strings {

  /** strings.Split(s, string(sep)): the fields between separators, at least one. */
  function Split(s: string, sep: char): (fields: seq<string>)
    ensures |fields| >= 1
    ensures forall i :: 0 <= i < |fields| ==> sep !in fields[i]
    decreases |s|
  {
    if |s| == 0 then [""]
    else
      var rest := Split(s[1..], sep);
      if s[0] == sep then [""] + rest
      else
        assert sep !in rest[0];
        [[s[0]] + rest[0]] + rest[1..]
  }

  /** strings.Join(fields, string(sep)) for a non-empty list of fields. */
  function Join(fields: seq<string>, sep: char): string
    requires |fields| >= 1
    decreases |fields|
  {
    if |fields| == 1 then fields[0] else fields[0] + [sep] + Join(fields[1..], sep)
  }

  /** Joining the fields of `s` gives `s` back. */
  lemma {:induction false} JoinSplit(s: string, sep: char)
    ensures Join(Split(s, sep), sep) == s
    decreases |s|
  {
    if |s| > 0 {
      var rest := Split(s[1..], sep);
      JoinSplit(s[1..], sep);
      assert s == [s[0]] + s[1..];
      if s[0] == sep {
        assert Split(s, sep)[1..] == rest;
      } else {
        var f := Split(s, sep);
        assert f == [[s[0]] + rest[0]] + rest[1..];
        if |rest| > 1 {
          assert f[1..] == rest[1..];
        }
      }
    }
  }

  /** Split of a string by its first character. */
  lemma SplitCons(c: char, t: string, sep: char)
    ensures Split([c] + t, sep)
              == if c == sep then [""] + Split(t, sep)
                 else [[c] + Split(t, sep)[0]] + Split(t, sep)[1..]
  {
    assert ([c] + t)[1..] == t;
  }

  /** A separator splits the string into the fields on each side of it. */
  lemma {:induction false} SplitAppend(a: string, b: string, sep: char)
    ensures Split(a + [sep] + b, sep) == Split(a, sep) + Split(b, sep)
    decreases |a|
  {
    if |a| == 0 {
      assert a + [sep] + b == [sep] + b;
      SplitCons(sep, b, sep);
    } else {
      SplitAppend(a[1..], b, sep);
      assert a == [a[0]] + a[1..];
      SplitAppendCons(a[0], a[1..], b, sep);
    }
  }

  /** The inductive step of SplitAppend: one more character in front. */
  lemma SplitAppendCons(c: char, a: string, b: string, sep: char)
    requires Split(a + [sep] + b, sep) == Split(a, sep) + Split(b, sep)
    ensures Split([c] + a + [sep] + b, sep) == Split([c] + a, sep) + Split(b, sep)
  {
    Assoc([c] + a, [sep], b);
    ConsRegroup(c, a, [sep] + b);
    Assoc(a, [sep], b);
    SplitCons(c, a + [sep] + b, sep);
    SplitCons(c, a, sep);
    var left := Split(a, sep);
    var right := Split(b, sep);
    if c == sep {
      Assoc([""], left, right);
    } else {
      ExtendFirstField([c], left, right);
    }
  }

  lemma ConsRegroup<T>(c: T, a: seq<T>, b: seq<T>)
    ensures [c] + a + b == [c] + (a + b)
  {
    Assoc([c], a, b);
  }

  /** Prefixing the first field of `left + right` prefixes the first field of `left`. */
  lemma ExtendFirstField(x: string, left: seq<string>, right: seq<string>)
    requires |left| >= 1
    ensures [x + (left + right)[0]] + (left + right)[1..] == [x + left[0]] + left[1..] + right
  {
    assert (left + right)[0] == left[0];
    assert (left + right)[1..] == left[1..] + right;
    Assoc([x + left[0]], left[1..], right);
  }

  /** Concatenation is associative. */
  lemma Assoc<T>(x: seq<T>, y: seq<T>, z: seq<T>)
    ensures x + (y + z) == x + y + z
  {
  }

  /** A string without the separator is a single field. */
  lemma {:induction false} SplitNoSeparator(a: string, sep: char)
    requires sep !in a
    ensures Split(a, sep) == [a]
    decreases |a|
  {
    if |a| > 0 {
      assert sep !in a[1..];
      SplitNoSeparator(a[1..], sep);
      assert a == [a[0]] + a[1..];
    }
  }

  /** Joining a field in front of further fields puts one separator after it. */
  lemma JoinCons(x: string, rest: seq<string>, sep: char)
    requires |rest| >= 1
    ensures Join([x] + rest, sep) == x + [sep] + Join(rest, sep)
  {
    assert ([x] + rest)[1..] == rest;
  }

  /** Joining two lists of fields puts one separator between their joins. */
  lemma {:induction false} JoinAppend(f: seq<string>, g: seq<string>, sep: char)
    requires |f| >= 1 && |g| >= 1
    ensures Join(f + g, sep) == Join(f, sep) + [sep] + Join(g, sep)
    decreases |f|
  {
    if |f| > 1 {
      JoinAppend(f[1..], g, sep);
      assert (f + g)[1..] == f[1..] + g;
    } else {
      assert (f + g)[1..] == g;
    }
  }

  /** Splitting a join of separator-free fields gives the fields back. */
  lemma {:induction false} SplitJoin(fields: seq<string>, sep: char)
    requires |fields| >= 1
    requires forall i :: 0 <= i < |fields| ==> sep !in fields[i]
    ensures Split(Join(fields, sep), sep) == fields
    decreases |fields|
  {
    SplitNoSeparator(fields[0], sep);
    if |fields| > 1 {
      SplitJoin(fields[1..], sep);
      SplitAppend(fields[0], Join(fields[1..], sep), sep);
      assert fields == [fields[0]] + fields[1..];
    }
  }

  /** strings.Contains(s, sub): `sub` occurs somewhere in `s`. */
  predicate Contains(s: string, sub: string)
    decreases |s|
  {
    sub <= s || (|s| > 0 && Contains(s[1..], sub))
  }

  /** Whatever contains `a + b` contains `a`. */
  lemma {:induction false} ContainsPrefixOfNeedle(s: string, a: string, b: string)
    requires Contains(s, a + b)
    ensures Contains(s, a)
    decreases |s|
  {
    if !(a + b <= s) {
      ContainsPrefixOfNeedle(s[1..], a, b);
    } else {
      assert a <= s by {
        assert forall i :: 0 <= i < |a| ==> (a + b)[i] == a[i];
      }
    }
  }

  /** `sub` occurs in `s` at offset `i`. */
  predicate OccursAt(s: string, sub: string, i: int)
  {
    0 <= i <= |s| - |sub| && s[i..i + |sub|] == sub
  }

  /** `sub` occurs in `s` exactly when it occurs at some offset. */
  lemma {:induction false} ContainsAt(s: string, sub: string)
    ensures Contains(s, sub) <==> exists i :: OccursAt(s, sub, i)
    decreases |s|
  {
    if sub <= s {
      assert OccursAt(s, sub, 0);
    } else if |s| > 0 {
      ContainsAt(s[1..], sub);
      if Contains(s[1..], sub) {
        var i :| OccursAt(s[1..], sub, i);
        assert OccursAt(s, sub, i + 1);
      }
      forall i | OccursAt(s, sub, i)
        ensures OccursAt(s[1..], sub, i - 1)
      {
        if i == 0 {
          assert false;
        }
      }
    }
  }
}
