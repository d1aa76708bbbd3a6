/**
 * The few Python string operations the report generator relies on, over
 * `string` (a sequence of Unicode scalar values, as a Python `str` is).
 */
module Text {

  import opened Lists

  /** Python's `str.isspace()` for one character: the characters `str.strip()` removes. */
  predicate IsSpace(c: char)
  {
    ('\t' <= c <= '\r') || ('\U{1C}' <= c <= '\U{1F}') || c == ' ' || c == '\U{85}' || c == '\U{A0}'
    || c == '\U{1680}' || ('\U{2000}' <= c <= '\U{200A}') || c == '\U{2028}' || c == '\U{2029}'
    || c == '\U{202F}' || c == '\U{205F}' || c == '\U{3000}'
  }

  /** Every character of `u` is white space. */
  predicate AllSpace(u: string)
  {
    u == [] || (IsSpace(u[0]) && AllSpace(u[1..]))
  }

  /** White space followed by white space is white space. */
  lemma {:induction false} AllSpaceAppend(u: string, v: string)
    requires AllSpace(u) && AllSpace(v)
    ensures AllSpace(u + v)
  {
    if u != [] {
      assert (u + v)[1..] == u[1..] + v;
      AllSpaceAppend(u[1..], v);
    } else {
      assert u + v == v;
    }
  }

  /** Drops leading white space (`str.lstrip()`): what is left is a suffix of `s`. */
  function TrimStart(s: string): (r: string)
    ensures |r| <= |s| && r == s[|s| - |r|..]
  {
    if s != [] && IsSpace(s[0]) then TrimStart(s[1..]) else s
  }

  /** Drops trailing white space (`str.rstrip()`): what is left is a prefix of `s`. */
  function TrimEnd(s: string): (r: string)
    ensures |r| <= |s| && r == s[..|r|]
  {
    if s != [] && IsSpace(s[|s| - 1]) then TrimEnd(s[..|s| - 1]) else s
  }

  /** What `TrimStart` keeps does not start with white space. */
  lemma {:induction false} TrimStartFirst(s: string)
    ensures TrimStart(s) == [] || !IsSpace(TrimStart(s)[0])
  {
    if s != [] && IsSpace(s[0]) {
      TrimStartFirst(s[1..]);
    }
  }

  /** What `TrimStart` drops is white space. */
  lemma {:induction false} TrimStartSpaces(s: string)
    ensures AllSpace(s[..|s| - |TrimStart(s)|])
  {
    if s != [] && IsSpace(s[0]) {
      TrimStartSpaces(s[1..]);
      var n := |s| - |TrimStart(s)|;
      assert s[..n][1..] == s[1..][..n - 1];
    }
  }

  /** What `TrimEnd` keeps does not end with white space. */
  lemma {:induction false} TrimEndLast(s: string)
    ensures TrimEnd(s) == [] || !IsSpace(TrimEnd(s)[|TrimEnd(s)| - 1])
  {
    if s != [] && IsSpace(s[|s| - 1]) {
      TrimEndLast(s[..|s| - 1]);
    }
  }

  /** What `TrimEnd` drops is white space. */
  lemma {:induction false} TrimEndSpaces(s: string)
    ensures AllSpace(s[|TrimEnd(s)|..])
  {
    if s != [] && IsSpace(s[|s| - 1]) {
      var front := s[..|s| - 1];
      TrimEndSpaces(front);
      var n := |TrimEnd(s)|;
      assert AllSpace([s[|s| - 1]]);
      AllSpaceAppend(front[n..], [s[|s| - 1]]);
      assert s[n..] == front[n..] + [s[|s| - 1]];
    }
  }

  /** `r` is the slice of `s` at `i`, and the parts of `s` before and after it are white space. */
  predicate TrimmedAt(s: string, r: string, i: int)
  {
    && 0 <= i <= |s| - |r|
    && r == s[i..i + |r|]
    && AllSpace(s[..i])
    && AllSpace(s[i + |r|..])
  }

  /**
   * `str.strip()`: the text between the leading and the trailing white space;
   * it neither starts nor ends with white space, and `StripSlice` shows it is
   * the slice of `s` that only white space surrounds.
   */
  function Strip(s: string): (r: string)
    ensures |r| <= |s|
    ensures r == [] || (!IsSpace(r[0]) && !IsSpace(r[|r| - 1]))
  {
    TrimStartFirst(s);
    TrimEndLast(TrimStart(s));
    TrimEnd(TrimStart(s))
  }

  /** The stripped text is a slice of `s` with only white space before and after it. */
  lemma StripSlice(s: string)
    ensures exists i :: TrimmedAt(s, Strip(s), i)
  {
    var t := TrimStart(s);
    TrimStartSpaces(s);
    TrimEndSpaces(t);
    TrimmedSlice(s, t, TrimEnd(t));
    assert Strip(s) == TrimEnd(t);
  }

  /**
   * A prefix `r` of a suffix `t` of `s` is a slice of `s`; when what `t` drops
   * from `s` and what `r` drops from `t` is white space, only white space
   * surrounds `r` in `s`.
   */
  lemma TrimmedSlice(s: string, t: string, r: string)
    requires |t| <= |s| && t == s[|s| - |t|..] && AllSpace(s[..|s| - |t|])
    requires |r| <= |t| && r == t[..|r|] && AllSpace(t[|r|..])
    ensures TrimmedAt(s, r, |s| - |t|)
  {
    assert s[|s| - |t| + |r|..] == t[|r|..];
  }

  /** A string without white space at either end is its own stripped form. */
  lemma StripNoSpaceAtEnds(s: string)
    requires s == [] || (!IsSpace(s[0]) && !IsSpace(s[|s| - 1]))
    ensures Strip(s) == s
  {
  }

  /** Stripping twice is stripping once. */
  lemma StripIdempotent(s: string)
    ensures Strip(Strip(s)) == Strip(s)
  {
    StripNoSpaceAtEnds(Strip(s));
  }

  /** `pat` occurs in `s` starting at index `i`. */
  predicate OccursAt(s: string, pat: string, i: int)
  {
    0 <= i && i + |pat| <= |s| && s[i..i + |pat|] == pat
  }

  /**
   * Python's `pat in s`: the empty pattern and every prefix of `s` occur in
   * it, and no pattern longer than `s` does.
   */
  predicate Contains(s: string, pat: string)
    ensures pat <= s ==> Contains(s, pat)
    ensures |pat| > |s| ==> !Contains(s, pat)
  {
    assert pat <= s ==> OccursAt(s, pat, 0);
    exists i :: 0 <= i <= |s| - |pat| && OccursAt(s, pat, i)
  }

  /** Python's `s.endswith(suffix)`: `s` is some text followed by `suffix`. */
  predicate EndsWith(s: string, suffix: string)
    ensures EndsWith(s, suffix) <==> exists p :: s == p + suffix
  {
    assert |suffix| <= |s| ==> s == s[..|s| - |suffix|] + s[|s| - |suffix|..];
    assert forall p :: s == p + suffix ==> s[|s| - |suffix|..] == suffix;
    |suffix| <= |s| && s[|s| - |suffix|..] == suffix
  }

  /**
   * The lower-case form of one character as far as it can yield an ASCII
   * letter: the ASCII capitals and the Kelvin sign U+212A are the only
   * characters whose Python `str.lower()` is a single ASCII letter; every
   * other character is kept.
   */
  function LowerChar(c: char): char
  {
    if 'A' <= c <= 'Z' then (c as int + 32) as char
    else if c == '\U{212A}' then 'k'
    else c
  }

  /**
   * `str.lower()` as far as the extra-deck test needs it: every ASCII capital
   * becomes its small letter, the Kelvin sign becomes 'k', and every other
   * character is kept.
   */
  function Lower(s: string): (r: string)
    ensures |r| == |s|
    ensures forall k :: 0 <= k < |r| ==> !('A' <= r[k] <= 'Z') && r[k] != '\U{212A}'
    ensures forall k :: 0 <= k < |s| && !('A' <= s[k] <= 'Z') && s[k] != '\U{212A}' ==> r[k] == s[k]
    ensures forall k :: 0 <= k < |s| && 'A' <= s[k] <= 'Z' ==> r[k] as int == s[k] as int + 32
    ensures forall k :: 0 <= k < |s| && s[k] == '\U{212A}' ==> r[k] == 'k'
  {
    seq(|s|, k requires 0 <= k < |s| => LowerChar(s[k]))
  }

  /**
   * Python's `sep.join(xs)` for a one-character separator: nothing for no
   * pieces, otherwise the first piece, followed by the separator when more
   * pieces follow (`JoinSnoc` and `SplitJoin` pin down the rest).
   */
  function Join(xs: seq<string>, sep: char): (r: string)
    ensures xs == [] ==> r == ""
    ensures xs != [] ==> xs[0] <= r
    ensures |xs| >= 2 ==> |r| > |xs[0]| && r[|xs[0]|] == sep
  {
    if xs == [] then ""
    else if |xs| == 1 then xs[0]
    else xs[0] + [sep] + Join(xs[1..], sep)
  }

  /** Lowering twice is lowering once. */
  lemma LowerIdempotent(s: string)
    ensures Lower(Lower(s)) == Lower(s)
  {
    assert forall k :: 0 <= k < |s| ==> Lower(Lower(s))[k] == Lower(s)[k];
  }

  /**
   * Python's `s.split(sep)` for a one-character separator: the pieces of `s`
   * between its separators, which joined with `sep` give `s` back.
   */
  function Split(s: string, sep: char): (parts: seq<string>)
    ensures |parts| >= 1
    ensures forall k :: 0 <= k < |parts| ==> sep !in parts[k]
    ensures Join(parts, sep) == s
    decreases |s|
  {
    if sep !in s then [s]
    else
      var i := IndexOf(s, sep);
      var rest := Split(s[i + 1..], sep);
      assert ([s[..i]] + rest)[1..] == rest;
      assert s == s[..i] + [sep] + s[i + 1..];
      [s[..i]] + rest
  }

  /** Appending one more line to a non-empty join adds a line break and the line. */
  lemma {:induction false} JoinSnoc(xs: seq<string>, y: string, sep: char)
    requires |xs| >= 1
    ensures Join(xs + [y], sep) == Join(xs, sep) + [sep] + y
  {
    if |xs| == 1 {
      assert xs + [y] == [xs[0], y];
    } else {
      assert (xs + [y])[1..] == xs[1..] + [y];
      JoinSnoc(xs[1..], y, sep);
    }
  }

  /** Splitting a join of pieces that hold no separator gives the pieces back. */
  lemma {:induction false} SplitJoin(xs: seq<string>, sep: char)
    requires |xs| >= 1
    requires forall k :: 0 <= k < |xs| ==> sep !in xs[k]
    ensures Split(Join(xs, sep), sep) == xs
  {
    if |xs| > 1 {
      var x, rest := xs[0], Join(xs[1..], sep);
      var s := x + [sep] + rest;
      assert s[|x|] == sep;
      var i := IndexOf(s, sep);
      assert s[..i] == x;
      assert s[i + 1..] == rest;
      SplitJoin(xs[1..], sep);
    }
  }

  /** The decimal digit character for `d`. */
  function Digit(d: nat): (c: char)
    requires d < 10
    ensures '0' <= c <= '9'
  {
    ('0' as int + d) as char
  }

  /** Python's `str(n)` / `"{}".format(n)` for a natural number. */
  function NatToString(n: nat): (s: string)
    ensures |s| >= 1
    ensures forall k :: 0 <= k < |s| ==> '0' <= s[k] <= '9'
    ensures |s| > 1 ==> s[0] != '0'
  {
    if n < 10 then [Digit(n)] else NatToString(n / 10) + [Digit(n % 10)]
  }

  /** The number a string of decimal digits denotes. */
  function DecimalValue(s: string): nat
    requires forall k :: 0 <= k < |s| ==> '0' <= s[k] <= '9'
  {
    if s == [] then 0 else DecimalValue(s[..|s| - 1]) * 10 + (s[|s| - 1] as int - '0' as int)
  }

  /** The decimal rendering of a count reads back as that count. */
  lemma {:induction false} DecimalRoundTrip(n: nat)
    ensures DecimalValue(NatToString(n)) == n
  {
    if n >= 10 {
      var s := NatToString(n);
      assert s[..|s| - 1] == NatToString(n / 10);
      DecimalRoundTrip(n / 10);
    }
  }

  /**
   * Python's `a < b` on strings: lexicographic order of code points. A proper
   * prefix comes first, and no string is before itself; `StrLtFirstDifference`
   * states the whole order as `FirstDifferenceLt`.
   */
  predicate StrLt(a: string, b: string)
    ensures StrLt(a, b) ==> a != b
    ensures |a| < |b| && a == b[..|a|] ==> StrLt(a, b)
  {
    assert a != [] && |a| < |b| && a == b[..|a|] ==> a[1..] == b[1..][..|a| - 1];
    if a == [] then b != []
    else if b == [] then false
    else a[0] < b[0] || (a[0] == b[0] && StrLt(a[1..], b[1..]))
  }

  /** `a` sorts before `b` iff it is a proper prefix of `b` or has the smaller character where they first differ. */
  ghost predicate FirstDifferenceLt(a: string, b: string)
  {
    || ProperPrefix(a, b)
    || exists i :: DiffersLowerAt(a, b, i)
  }

  predicate ProperPrefix(a: string, b: string)
  {
    |a| < |b| && a == b[..|a|]
  }

  /** `a` and `b` agree before position `i`, where `a` has the smaller character. */
  predicate DiffersLowerAt(a: string, b: string, i: int)
  {
    0 <= i < |a| && i < |b| && a[..i] == b[..i] && a[i] < b[i]
  }

  lemma {:induction false} StrLtFirstDifference(a: string, b: string)
    ensures StrLt(a, b) <==> FirstDifferenceLt(a, b)
  {
    if a != [] && b != [] {
      if a[0] == b[0] {
        StrLtFirstDifference(a[1..], b[1..]);
        FirstDifferenceTail(a, b);
      } else {
        FirstDifferenceHead(a, b);
      }
    }
  }

  /** Strings with different first characters are ordered by those characters. */
  lemma FirstDifferenceHead(a: string, b: string)
    requires a != [] && b != [] && a[0] != b[0]
    ensures FirstDifferenceLt(a, b) <==> a[0] < b[0]
  {
    if a[0] < b[0] {
      assert a[..0] == b[..0];
      assert DiffersLowerAt(a, b, 0);
    } else {
      forall i | 0 < i <= |a| && i <= |b|
        ensures a[..i] != b[..i]
      {
        assert a[..i][0] != b[..i][0];
      }
      if |a| < |b| {
        assert b[..|a|][0] != a[0];
      }
    }
  }

  /** Strings with the same first character are ordered as their tails. */
  lemma FirstDifferenceTail(a: string, b: string)
    requires a != [] && b != [] && a[0] == b[0]
    ensures FirstDifferenceLt(a, b) <==> FirstDifferenceLt(a[1..], b[1..])
  {
    var a', b' := a[1..], b[1..];
    assert ProperPrefix(a, b) <==> ProperPrefix(a', b') by {
      assert a == [a[0]] + a';
      if |a| < |b| {
        assert b[..|a|] == [b[0]] + b'[..|a'|];
      }
    }
    if exists i :: DiffersLowerAt(a, b, i) {
      var i :| DiffersLowerAt(a, b, i);
      DiffersLowerAtTail(a, b, i);
    }
    if exists i :: DiffersLowerAt(a', b', i) {
      var i :| DiffersLowerAt(a', b', i);
      DiffersLowerAtTail(a, b, i + 1);
    }
  }

  lemma DiffersLowerAtTail(a: string, b: string, i: int)
    requires a != [] && b != [] && a[0] == b[0]
    ensures DiffersLowerAt(a, b, i) <==> i > 0 && DiffersLowerAt(a[1..], b[1..], i - 1)
  {
    if 0 < i < |a| && i < |b| {
      assert a[..i] == [a[0]] + a[1..][..i - 1];
      assert b[..i] == [b[0]] + b[1..][..i - 1];
      assert a[..i][1..] == a[1..][..i - 1];
      assert b[..i][1..] == b[1..][..i - 1];
    }
  }

  lemma {:induction false} StrLtIrreflexive(a: string)
    ensures !StrLt(a, a)
  {
    if a != [] {
      StrLtIrreflexive(a[1..]);
    }
  }

  lemma {:induction false} StrLtTransitive(a: string, b: string, c: string)
    requires StrLt(a, b) && StrLt(b, c)
    ensures StrLt(a, c)
  {
    if a != [] && b != [] && c != [] && a[0] == b[0] == c[0] {
      StrLtTransitive(a[1..], b[1..], c[1..]);
    }
  }

  lemma {:induction false} StrLtTrichotomous(a: string, b: string)
    ensures a == b || StrLt(a, b) || StrLt(b, a)
  {
    if a != [] && b != [] && a[0] == b[0] {
      StrLtTrichotomous(a[1..], b[1..]);
      if a[1..] == b[1..] {
        assert a == [a[0]] + a[1..] && b == [b[0]] + b[1..];
      }
    }
  }
}
