/** The handful of Python `str` and `tuple` operations the preferences code
    relies on: `startswith`, the substring test `in`, `lower()`, `split(".")`,
    `".".join(...)`, and the lexicographic comparison of tuples and strings. */
module Strings {

  // ---------------------------------------------------------------------------
  // Prefixes: `s.startswith(p)` and `s.startswith((p1, p2, ...))`

  /** `s.startswith(p)` */
  predicate StartsWith(s: string, p: string)
  {
    |p| <= |s| && s[..|p|] == p
  }

  /** `s.startswith(prefixes)` for a tuple of prefixes: true exactly when one
      of them is a prefix of `s` (an empty tuple accepts nothing). */
  function StartsWithAny(s: string, prefixes: seq<string>): (b: bool)
    ensures b <==> exists i :: 0 <= i < |prefixes| && StartsWith(s, prefixes[i])
  {
    if |prefixes| == 0 then false
    else
      var rest := StartsWithAny(s, prefixes[1..]);
      assert forall i :: 0 < i < |prefixes| ==> prefixes[i] == prefixes[1..][i - 1];
      StartsWith(s, prefixes[0]) || rest
  }

  // ---------------------------------------------------------------------------
  // Substrings: `needle in hay`

  /** `needle` occurs in `hay` starting at index `i`. */
  predicate OccursAt(hay: string, needle: string, i: int)
  {
    0 <= i && i + |needle| <= |hay| && hay[i..i + |needle|] == needle
  }

  /** Python's substring test `needle in hay`, searched left to right.
      The empty needle occurs in every string. */
  function Contains(hay: string, needle: string): (b: bool)
    ensures b <==> exists i :: OccursAt(hay, needle, i)
    decreases |hay|
  {
    if StartsWith(hay, needle) then
      assert OccursAt(hay, needle, 0);
      true
    else if |hay| == 0 then
      assert forall i :: !OccursAt(hay, needle, i);
      false
    else
      var rest := Contains(hay[1..], needle);
      assert forall i :: OccursAt(hay[1..], needle, i) <==> OccursAt(hay, needle, i + 1) by {
        forall i ensures OccursAt(hay[1..], needle, i) <==> OccursAt(hay, needle, i + 1) {
          if 0 <= i && i + |needle| <= |hay[1..]| {
            assert hay[1..][i..i + |needle|] == hay[i + 1..i + 1 + |needle|];
          }
        }
      }
      assert !OccursAt(hay, needle, 0);
      assert forall i :: OccursAt(hay, needle, i) ==> i >= 1 && OccursAt(hay[1..], needle, i - 1);
      rest
  }

  // ---------------------------------------------------------------------------
  // Case folding: `str.lower()` restricted to ASCII

  predicate IsUpper(c: char)
  {
    'A' <= c <= 'Z'
  }

  function LowerChar(c: char): (r: char)
    ensures !IsUpper(r)
    ensures IsUpper(c) ==> r as int == c as int + 32
    ensures !IsUpper(c) ==> r == c
  {
    if IsUpper(c) then (c as int + 32) as char else c
  }

  /** `s.lower()`: every ASCII capital letter replaced by its small letter. */
  function Lower(s: string): (r: string)
    ensures |r| == |s|
    ensures forall i :: 0 <= i < |s| ==> r[i] == LowerChar(s[i])
  {
    if |s| == 0 then "" else [LowerChar(s[0])] + Lower(s[1..])
  }

  /** Lower-casing twice is lower-casing once, and the result is never upper. */
  lemma LowerIdempotent(s: string)
    ensures Lower(Lower(s)) == Lower(s)
    ensures forall i :: 0 <= i < |s| ==> !IsUpper(Lower(s)[i])
  {
  }

  // ---------------------------------------------------------------------------
  // `s.split(sep)` and `sep.join(parts)` for a one-character separator

  /** Python's `s.split(sep)`: never empty; keeps empty fields, so `""`
      splits into `[""]` and `"a..b"` into `["a", "", "b"]`. */
  function Split(s: string, sep: char): (parts: seq<string>)
    ensures |parts| >= 1
    decreases |s|
  {
    if |s| == 0 then [""]
    else
      var rest := Split(s[1..], sep);
      if s[0] == sep then [""] + rest
      else [[s[0]] + rest[0]] + rest[1..]
  }

  /** No field of a split contains the separator. */
  lemma {:induction false} SplitFieldsFree(s: string, sep: char)
    ensures forall k :: 0 <= k < |Split(s, sep)| ==> sep !in Split(s, sep)[k]
    decreases |s|
  {
    if |s| > 0 {
      SplitFieldsFree(s[1..], sep);
      var rest := Split(s[1..], sep);
      if s[0] != sep {
        assert sep !in [s[0]] + rest[0];
      }
    }
  }

  /** Python's `sep.join(parts)`. */
  function Join(parts: seq<string>, sep: char): string
  {
    if |parts| == 0 then ""
    else if |parts| == 1 then parts[0]
    else parts[0] + [sep] + Join(parts[1..], sep)
  }

  /** A string without the separator splits into itself. */
  lemma {:induction false} SplitNoSep(s: string, sep: char)
    requires sep !in s
    ensures Split(s, sep) == [s]
    decreases |s|
  {
    if |s| > 0 {
      SplitNoSep(s[1..], sep);
      assert [s[0]] + s[1..] == s;
    }
  }

  /** One step of the split: a leading separator closes an empty field,
      any other character opens the first field. */
  lemma SplitCons(c: char, t: string, sep: char)
    ensures Split([c] + t, sep) ==
      (if c == sep then [""] + Split(t, sep)
       else [[c] + Split(t, sep)[0]] + Split(t, sep)[1..])
  {
    assert ([c] + t)[1..] == t;
  }

  /** The list algebra behind one step of `SplitConcat`: extending the
      first field of `ra + rb` is extending the first field of `ra`. */
  lemma ExtendFirstField(c: char, ra: seq<string>, rb: seq<string>)
    requires |ra| >= 1
    ensures [[c] + (ra + rb)[0]] + (ra + rb)[1..] == ([[c] + ra[0]] + ra[1..]) + rb
  {
    assert (ra + rb)[0] == ra[0];
    assert (ra + rb)[1..] == ra[1..] + rb;
  }

  /** The inductive step of `SplitConcat`: a character put in front of both
      sides. */
  lemma SplitConcatStep(c: char, t: string, b: string, sep: char)
    requires Split(t + [sep] + b, sep) == Split(t, sep) + Split(b, sep)
    ensures Split([c] + (t + [sep] + b), sep) == Split([c] + t, sep) + Split(b, sep)
  {
    var u := t + [sep] + b;
    var ra, rb := Split(t, sep), Split(b, sep);
    SplitCons(c, u, sep);
    SplitCons(c, t, sep);
    if c == sep {
      assert [""] + (ra + rb) == ([""] + ra) + rb;
    } else {
      ExtendFirstField(c, ra, rb);
    }
  }

  /** Splitting distributes over a separator placed between two strings. */
  lemma {:induction false} SplitConcat(a: string, b: string, sep: char)
    ensures Split(a + [sep] + b, sep) == Split(a, sep) + Split(b, sep)
    decreases |a|
  {
    if |a| == 0 {
      assert a + [sep] + b == [sep] + b;
      SplitCons(sep, b, sep);
    } else {
      var t := a[1..];
      assert a == [a[0]] + t;
      assert a + [sep] + b == [a[0]] + (t + [sep] + b);
      SplitConcat(t, b, sep);
      SplitConcatStep(a[0], t, b, sep);
    }
  }

  /** Joining separator-free fields and splitting again gives the fields
      back: `".".join(xs).split(".") == xs`. */
  lemma {:induction false} SplitJoin(parts: seq<string>, sep: char)
    requires |parts| >= 1
    requires forall k :: 0 <= k < |parts| ==> sep !in parts[k]
    ensures Split(Join(parts, sep), sep) == parts
    decreases |parts|
  {
    if |parts| == 1 {
      SplitNoSep(parts[0], sep);
    } else {
      SplitJoin(parts[1..], sep);
      SplitConcat(parts[0], Join(parts[1..], sep), sep);
      SplitNoSep(parts[0], sep);
      assert [parts[0]] + parts[1..] == parts;
    }
  }

  /** Splitting and joining again gives the string back:
      `".".join(s.split(".")) == s`. */
  lemma {:induction false} JoinSplit(s: string, sep: char)
    ensures Join(Split(s, sep), sep) == s
    decreases |s|
  {
    if |s| > 0 {
      var rest := Split(s[1..], sep);
      JoinSplit(s[1..], sep);
      if s[0] == sep {
        assert Join([""] + rest, sep) == "" + [sep] + Join(rest, sep);
        assert [s[0]] + s[1..] == s;
      } else {
        var parts := [[s[0]] + rest[0]] + rest[1..];
        if |rest| == 1 {
          assert [s[0]] + s[1..] == s;
        } else {
          assert parts[1..] == rest[1..];
          assert Join(rest, sep) == rest[0] + [sep] + Join(rest[1..], sep);
          assert [s[0]] + s[1..] == s;
        }
      }
    }
  }

  // ---------------------------------------------------------------------------
  // Ordering: Python compares tuples of ints and strings lexicographically

  /** Python's `a < b` on tuples of ints: the first differing position
      decides, and a proper prefix is smaller than the longer tuple. */
  function LexLess(a: seq<int>, b: seq<int>): bool
  {
    if |a| == 0 then |b| > 0
    else if |b| == 0 then false
    else if a[0] != b[0] then a[0] < b[0]
    else LexLess(a[1..], b[1..])
  }

  /** The two ways `a < b` can hold: `a` differs from `b` first at a
      position where it is smaller, or `a` is a proper prefix of `b`. */
  ghost predicate LexBelow(a: seq<int>, b: seq<int>)
  {
    (exists k :: 0 <= k < |a| && k < |b| && a[..k] == b[..k] && a[k] < b[k])
    || (|a| < |b| && b[..|a|] == a)
  }

  lemma {:induction false} LexLessIsBelow(a: seq<int>, b: seq<int>)
    requires LexLess(a, b)
    ensures LexBelow(a, b)
    decreases |a|
  {
    if |a| == 0 {
      assert b[..0] == a;
    } else if a[0] != b[0] {
      assert a[..0] == b[..0];
    } else {
      LexLessIsBelow(a[1..], b[1..]);
      if exists k :: 0 <= k < |a[1..]| && k < |b[1..]| && a[1..][..k] == b[1..][..k] && a[1..][k] < b[1..][k] {
        var k :| 0 <= k < |a[1..]| && k < |b[1..]| && a[1..][..k] == b[1..][..k] && a[1..][k] < b[1..][k];
        assert a[..k + 1] == [a[0]] + a[1..][..k];
        assert b[..k + 1] == [b[0]] + b[1..][..k];
      } else {
        assert b[..|a|] == [b[0]] + b[1..][..|a[1..]|];
        assert a == [a[0]] + a[1..];
      }
    }
  }

  lemma {:induction false} BelowIsLexLess(a: seq<int>, b: seq<int>)
    requires LexBelow(a, b)
    ensures LexLess(a, b)
    decreases |a|
  {
    if |a| > 0 {
      assert |b| > 0;
      if exists k :: 0 <= k < |a| && k < |b| && a[..k] == b[..k] && a[k] < b[k] {
        var k :| 0 <= k < |a| && k < |b| && a[..k] == b[..k] && a[k] < b[k];
        if k > 0 {
          assert a[..k][0] == b[..k][0];
          assert a[1..][..k - 1] == a[..k][1..];
          assert b[1..][..k - 1] == b[..k][1..];
          BelowIsLexLess(a[1..], b[1..]);
        }
      } else {
        assert b[..|a|][0] == a[0];
        assert b[1..][..|a[1..]|] == b[..|a|][1..];
        BelowIsLexLess(a[1..], b[1..]);
      }
    }
  }

  /** `LexLess` is exactly Python's tuple order. */
  lemma LexLessMeansBelow(a: seq<int>, b: seq<int>)
    ensures LexLess(a, b) <==> LexBelow(a, b)
  {
    if LexLess(a, b) {
      LexLessIsBelow(a, b);
    }
    if LexBelow(a, b) {
      BelowIsLexLess(a, b);
    }
  }

  lemma {:induction false} LexLessIrreflexive(a: seq<int>)
    ensures !LexLess(a, a)
    decreases |a|
  {
    if |a| > 0 {
      LexLessIrreflexive(a[1..]);
    }
  }

  lemma {:induction false} LexLessTransitive(a: seq<int>, b: seq<int>, c: seq<int>)
    requires LexLess(a, b) && LexLess(b, c)
    ensures LexLess(a, c)
    decreases |a|
  {
    if |a| > 0 && |b| > 0 && |c| > 0 && a[0] == b[0] && b[0] == c[0] {
      LexLessTransitive(a[1..], b[1..], c[1..]);
    }
  }

  /** Any two tuples are equal or ordered one way or the other. */
  lemma {:induction false} LexLessTotal(a: seq<int>, b: seq<int>)
    ensures a == b || LexLess(a, b) || LexLess(b, a)
    decreases |a|
  {
    if |a| > 0 && |b| > 0 && a[0] == b[0] {
      LexLessTotal(a[1..], b[1..]);
      if a[1..] == b[1..] {
        assert a == [a[0]] + a[1..] && b == [b[0]] + b[1..];
      }
    }
  }

  /** The code points of a string, which is what Python compares strings by. */
  function Codes(s: string): (r: seq<int>)
    ensures |r| == |s|
    ensures forall i :: 0 <= i < |s| ==> r[i] == s[i] as int
  {
    seq(|s|, i requires 0 <= i < |s| => s[i] as int)
  }

  lemma CodesInjective(a: string, b: string)
    requires Codes(a) == Codes(b)
    ensures a == b
  {
    assert |a| == |Codes(a)| == |Codes(b)| == |b|;
    forall i | 0 <= i < |a| ensures a[i] == b[i] {
      assert Codes(a)[i] == Codes(b)[i];
    }
  }

  /** Python's `a < b` on strings. */
  predicate StrLess(a: string, b: string)
  {
    LexLess(Codes(a), Codes(b))
  }

  /** `StrLess` is a strict total order. */
  lemma StrLessOrder(a: string, b: string, c: string)
    ensures !StrLess(a, a)
    ensures StrLess(a, b) && StrLess(b, c) ==> StrLess(a, c)
    ensures a == b || StrLess(a, b) || StrLess(b, a)
  {
    LexLessIrreflexive(Codes(a));
    if StrLess(a, b) && StrLess(b, c) {
      LexLessTransitive(Codes(a), Codes(b), Codes(c));
    }
    LexLessTotal(Codes(a), Codes(b));
    if Codes(a) == Codes(b) {
      CodesInjective(a, b);
    }
  }
}
