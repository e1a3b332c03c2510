/**
  * The string helpers of Go's standard library that the matcher relies on:
  * strings.IndexByte / LastIndexByte, strings.Split and strings.TrimSpace.
  * Go strings are byte strings; here a string is a sequence of characters,
  * which agrees with Go for the ASCII delimiters involved.
  */
module Text {
  import opened Wrappers

  /** Index of the first occurrence of `c` in `s`. */
  function IndexOf(s: string, c: char): (r: Option<nat>)
    ensures r.None? <==> c !in s
    ensures r.Some? ==> r.value < |s| && s[r.value] == c && c !in s[..r.value]
  {
    if s == [] then None
    else if s[0] == c then Some(0)
    else
      match IndexOf(s[1..], c)
      case None => None
      case Some(i) =>
        assert s[..i + 1] == [s[0]] + s[1..][..i];
        Some(i + 1)
  }

  /** Index of the last occurrence of `c` in `s`. */
  function LastIndexOf(s: string, c: char): (r: Option<nat>)
    ensures r.None? <==> c !in s
    ensures r.Some? ==> r.value < |s| && s[r.value] == c && c !in s[r.value + 1..]
  {
    if s == [] then None
    else if s[|s| - 1] == c then Some(|s| - 1)
    else
      var r := LastIndexOf(s[..|s| - 1], c);
      LastIndexOfStep(s, c, r);
      r
  }

  lemma LastIndexOfStep(s: string, c: char, r: Option<nat>)
    requires s != [] && s[|s| - 1] != c
    requires r.None? <==> c !in s[..|s| - 1]
    requires r.Some? ==> r.value < |s| - 1 && s[r.value] == c && c !in s[..|s| - 1][r.value + 1..]
    ensures r.None? <==> c !in s
    ensures r.Some? ==> r.value < |s| && s[r.value] == c && c !in s[r.value + 1..]
  {
    assert s == s[..|s| - 1] + [s[|s| - 1]];
    if r.Some? {
      assert s[r.value + 1..] == s[..|s| - 1][r.value + 1..] + [s[|s| - 1]];
    }
  }

  /** The ensures of IndexOf determine it. */
  lemma IndexOfIs(s: string, c: char, i: nat)
    requires i < |s| && s[i] == c && c !in s[..i]
    ensures IndexOf(s, c) == Some(i)
  {
  }

  /** The ensures of LastIndexOf determine it. */
  lemma LastIndexOfIs(s: string, c: char, i: nat)
    requires i < |s| && s[i] == c && c !in s[i + 1..]
    ensures LastIndexOf(s, c) == Some(i)
  {
  }

  /** Go's unicode.IsSpace: the ASCII white space characters, NEL, NBSP and
      the other code points with the Unicode White_Space property. */
  predicate IsSpace(c: char) {
    var n := c as int;
    (0x09 <= n <= 0x0D) || n == 0x20 || n == 0x85 || n == 0xA0 || n == 0x1680
    || (0x2000 <= n <= 0x200A) || n == 0x2028 || n == 0x2029 || n == 0x202F
    || n == 0x205F || n == 0x3000
  }

  predicate AllSpace(s: string) {
    forall i :: 0 <= i < |s| ==> IsSpace(s[i])
  }

  /** True when `s` neither starts nor ends with white space. */
  predicate Trimmed(s: string) {
    s == [] || (!IsSpace(s[0]) && !IsSpace(s[|s| - 1]))
  }

  /** Go's strings.TrimLeftFunc(s, unicode.IsSpace): `s` without its leading
      white space, a suffix of `s`, preceded only by
      white space, that does not itself start with white space. */
  function TrimLeftSpace(s: string): (r: string)
    ensures |r| <= |s| && r == s[|s| - |r|..]
    ensures AllSpace(s[..|s| - |r|])
    ensures r == [] || !IsSpace(r[0])
  {
    if s != [] && IsSpace(s[0]) then
      var r := TrimLeftSpace(s[1..]);
      assert s[..|s| - |r|] == [s[0]] + s[1..][..|s| - 1 - |r|];
      r
    else s
  }

  /** Go's strings.TrimRightFunc(s, unicode.IsSpace): `s` without its trailing
      white space, a prefix of `s`, followed only by
      white space, that does not itself end with white space. */
  function TrimRightSpace(s: string): (r: string)
    ensures |r| <= |s| && r == s[..|r|]
    ensures AllSpace(s[|r|..])
    ensures r == [] || !IsSpace(r[|r| - 1])
  {
    if s != [] && IsSpace(s[|s| - 1]) then
      var r := TrimRightSpace(s[..|s| - 1]);
      assert s[|r|..] == s[..|s| - 1][|r|..] + [s[|s| - 1]];
      r
    else s
  }

  /** Go's strings.TrimSpace: `s` with leading and trailing white space
      removed. TrimLeftSpace and TrimRightSpace say that only white space is cut. */
  function TrimSpace(s: string): (r: string)
    ensures Trimmed(r)
  {
    var left := TrimLeftSpace(s);
    var r := TrimRightSpace(left);
    assert r != [] ==> r[0] == left[0];
    r
  }

  lemma AllSpaceConcat(a: string, b: string)
    requires AllSpace(a) && AllSpace(b)
    ensures AllSpace(a + b)
  {
  }

  /** Surrounding a trimmed string with white space and trimming gives it
      back. Every string splits this way, so this lemma determines TrimSpace
      on every input. */
  lemma {:induction false} TrimSpaceOfPadded(a: string, m: string, b: string)
    requires AllSpace(a) && AllSpace(b) && Trimmed(m)
    ensures TrimSpace(a + m + b) == m
  {
    if m == [] {
      AllSpaceConcat(a, b);
      assert a + m + b == a + b;
      assert TrimLeftSpace(a + b) == [];
    } else {
      assert a + m + b == a + (m + b);
      TrimLeftSpaceOfPadded(a, m + b);
      TrimRightSpaceOfPadded(m, b);
    }
  }

  lemma {:induction false} TrimLeftSpaceOfPadded(a: string, t: string)
    requires AllSpace(a) && (t == [] || !IsSpace(t[0]))
    ensures TrimLeftSpace(a + t) == t
  {
    if a != [] {
      assert (a + t)[1..] == a[1..] + t;
      TrimLeftSpaceOfPadded(a[1..], t);
    }
  }

  lemma {:induction false} TrimRightSpaceOfPadded(t: string, b: string)
    requires AllSpace(b) && (t == [] || !IsSpace(t[|t| - 1]))
    ensures TrimRightSpace(t + b) == t
  {
    if b != [] {
      assert (t + b)[..|t + b| - 1] == t + b[..|b| - 1];
      TrimRightSpaceOfPadded(t, b[..|b| - 1]);
    } else {
      assert t + b == t;
    }
  }

  /** Trimming twice is trimming once. */
  lemma {:induction false} TrimSpaceIdempotent(s: string)
    ensures TrimSpace(TrimSpace(s)) == TrimSpace(s)
  {
    var m := TrimSpace(s);
    assert TrimLeftSpace(m) == m;
    assert TrimRightSpace(m) == m;
  }

  /** Go's strings.Split(s, [sep]) for a one-character separator: the pieces
      between separators, at least one, none containing the separator. */
  function Split(s: string, sep: char): (r: seq<string>)
    ensures |r| >= 1
    ensures forall k :: 0 <= k < |r| ==> sep !in r[k]
  {
    if s == [] then [[]]
    else
      var rest := Split(s[1..], sep);
      if s[0] == sep then [[]] + rest
      else [[s[0]] + rest[0]] + rest[1..]
  }

  /** Go's strings.Join(parts, [sep]), the inverse of Split. */
  function Join(parts: seq<string>, sep: char): string {
    if |parts| == 0 then []
    else if |parts| == 1 then parts[0]
    else parts[0] + [sep] + Join(parts[1..], sep)
  }

  /** Joining the pieces of a split gives the original string back. */
  lemma {:induction false} JoinSplit(s: string, sep: char)
    ensures Join(Split(s, sep), sep) == s
  {
    if s != [] {
      var rest := Split(s[1..], sep);
      JoinSplit(s[1..], sep);
      if s[0] == sep {
        assert ([[]] + rest)[1..] == rest;
      } else if |rest| == 1 {
      } else {
        var r := [[s[0]] + rest[0]] + rest[1..];
        assert r[1..] == rest[1..];
        assert Join(rest, sep) == rest[0] + [sep] + Join(rest[1..], sep);
      }
    }
  }

  /** Splitting a join of separator-free pieces gives the pieces back. */
  lemma {:induction false} SplitJoin(parts: seq<string>, sep: char)
    requires |parts| >= 1
    requires forall k :: 0 <= k < |parts| ==> sep !in parts[k]
    ensures Split(Join(parts, sep), sep) == parts
  {
    if |parts| == 1 {
      SplitOfPlain(parts[0], sep);
    } else {
      var tail := Join(parts[1..], sep);
      SplitJoin(parts[1..], sep);
      SplitOfPlainThenSep(parts[0], tail, sep);
      assert parts == [parts[0]] + parts[1..];
    }
  }

  /** A string without the separator splits into itself. */
  lemma {:induction false} SplitOfPlain(s: string, sep: char)
    requires sep !in s
    ensures Split(s, sep) == [s]
  {
    if s != [] {
      SplitOfPlain(s[1..], sep);
      assert [s[0]] + s[1..] == s;
    }
  }

  /** The first piece of `p + [sep] + t` is `p` when `p` has no separator. */
  lemma {:induction false} SplitOfPlainThenSep(p: string, t: string, sep: char)
    requires sep !in p
    ensures Split(p + [sep] + t, sep) == [p] + Split(t, sep)
  {
    if p == [] {
      assert ([] + [sep] + t)[1..] == t;
    } else {
      assert (p + [sep] + t)[1..] == p[1..] + [sep] + t;
      SplitOfPlainThenSep(p[1..], t, sep);
      assert [p[0]] + p[1..] == p;
    }
  }

  /** strings.Split(s, [sep])[0]: the text before the first separator, or the
      whole string when it has none. */
  function FirstToken(s: string, sep: char): (r: string)
    ensures |r| <= |s| && r == s[..|r|] && sep !in r
    ensures |r| == |s| || s[|r|] == sep
  {
    FirstTokenIsPrefix(s, sep);
    Split(s, sep)[0]
  }

  lemma {:induction false} FirstTokenIsPrefix(s: string, sep: char)
    ensures var r := Split(s, sep)[0];
            |r| <= |s| && r == s[..|r|] && (|r| == |s| || s[|r|] == sep)
  {
    if s != [] && s[0] != sep {
      FirstTokenIsPrefix(s[1..], sep);
    }
  }

  /** FirstToken agrees with IndexOf: it ends where the first separator is. */
  lemma FirstTokenByIndex(s: string, sep: char)
    ensures IndexOf(s, sep).None? ==> FirstToken(s, sep) == s
    ensures IndexOf(s, sep).Some? ==> FirstToken(s, sep) == s[..IndexOf(s, sep).value]
  {
  }
}
