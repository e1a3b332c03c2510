/**
  * Go's http.Header: a map from header names to their values. Names are
  * stored in canonical form (net/textproto.CanonicalMIMEHeaderKey), and
  * Header.Get canonicalises the name it is asked for before looking it up.
  * Indexing the map directly, as `req.Header["X-Caddy-Ban"]` does, does not.
  */
module HttpHeader {
  type Header = map<string, seq<string>>

  /** A byte allowed in a header field name (a token character). */
  predicate IsTokenChar(c: char) {
    ('a' <= c <= 'z') || ('A' <= c <= 'Z') || ('0' <= c <= '9')
    || c == '!' || c == '#' || c == '$' || c == '%' || c == '&' || c == '\'' || c == '*'
    || c == '+' || c == '-' || c == '.' || c == '^' || c == '_' || c == '`' || c == '|' || c == '~'
  }

  predicate IsToken(s: string) {
    forall i :: 0 <= i < |s| ==> IsTokenChar(s[i])
  }

  function ToUpper(c: char): char {
    if 'a' <= c <= 'z' then (c as int - 32) as char else c
  }

  function ToLower(c: char): char {
    if 'A' <= c <= 'Z' then (c as int + 32) as char else c
  }

  /** ASCII case-insensitive equality of two characters. */
  predicate SameFold(a: char, b: char) {
    ToLower(a) == ToLower(b)
  }

  /** The letter at position `i` of a canonical key is upper case when it
      starts the key or follows a '-', lower case otherwise. */
  function CanonicalAt(s: string, i: nat, upperFirst: bool): char
    requires i < |s|
  {
    var upper := if i == 0 then upperFirst else s[i - 1] == '-';
    if upper then ToUpper(s[i]) else ToLower(s[i])
  }

  function Canonicalize(s: string, upper: bool): (r: string)
    ensures |r| == |s|
    ensures forall i :: 0 <= i < |s| ==> r[i] == CanonicalAt(s, i, upper)
  {
    if s == [] then []
    else
      var c := if upper then ToUpper(s[0]) else ToLower(s[0]);
      var rest := Canonicalize(s[1..], s[0] == '-');
      assert forall i :: 1 <= i < |s| ==> CanonicalAt(s[1..], i - 1, s[0] == '-') == CanonicalAt(s, i, upper);
      [c] + rest
  }

  /** net/textproto.CanonicalMIMEHeaderKey: a name made only of token
      characters gets its first letter and every letter after a '-' in upper
      case and the others in lower case; any other name is left as it is. */
  function CanonicalKey(s: string): (r: string)
    ensures |r| == |s|
    ensures IsToken(s) ==> forall i :: 0 <= i < |s| ==> r[i] == CanonicalAt(s, i, true)
    ensures !IsToken(s) ==> r == s
  {
    if IsToken(s) then Canonicalize(s, true) else s
  }

  /** Canonicalising is idempotent. */
  lemma CanonicalKeyIdempotent(s: string)
    ensures CanonicalKey(CanonicalKey(s)) == CanonicalKey(s)
  {
    if IsToken(s) {
      var r := CanonicalKey(s);
      forall i | 0 <= i < |r| ensures IsTokenChar(r[i]) && SameFold(r[i], s[i]) && (r[i] == '-' <==> s[i] == '-') {
        assert r[i] == CanonicalAt(s, i, true);
      }
      var rr := CanonicalKey(r);
      forall i | 0 <= i < |r| ensures rr[i] == r[i] {
        assert rr[i] == CanonicalAt(r, i, true);
        assert r[i] == CanonicalAt(s, i, true);
      }
    }
  }

  /** Two token names that differ only in ASCII case have the same canonical
      form, so Get finds a header whatever case its name is asked in. */
  lemma CanonicalKeyIgnoresCase(s: string, t: string)
    requires |s| == |t| && IsToken(s) && IsToken(t)
    requires forall i :: 0 <= i < |s| ==> SameFold(s[i], t[i])
    ensures CanonicalKey(s) == CanonicalKey(t)
  {
    var a, b := CanonicalKey(s), CanonicalKey(t);
    forall i | 0 <= i < |s| ensures a[i] == b[i] {
      assert a[i] == CanonicalAt(s, i, true);
      assert b[i] == CanonicalAt(t, i, true);
      SameFoldChars(s[i], t[i]);
      if i > 0 {
        SameFoldChars(s[i - 1], t[i - 1]);
      }
    }
  }

  lemma SameFoldChars(a: char, b: char)
    requires SameFold(a, b)
    ensures ToUpper(a) == ToUpper(b) && (a == '-' <==> b == '-')
  {
  }

  /** http.Header.Get: the first value stored under the canonical form of
      `key`, or "" when there is none. */
  function Get(h: Header, key: string): (r: string)
    ensures CanonicalKey(key) in h && |h[CanonicalKey(key)]| > 0 ==> r == h[CanonicalKey(key)][0]
    ensures CanonicalKey(key) !in h || |h[CanonicalKey(key)]| == 0 ==> r == ""
  {
    var k := CanonicalKey(key);
    if k in h && |h[k]| > 0 then h[k][0] else ""
  }

  /** A token name whose letters already sit in canonical case is its own
      canonical form. */
  lemma CanonicalKeyIs(s: string, expected: string)
    requires IsToken(s) && |expected| == |s|
    requires forall i :: 0 <= i < |s| ==> expected[i] == CanonicalAt(s, i, true)
    ensures CanonicalKey(s) == expected
  {
  }

  /** The canonical forms of the header names the matcher reads: Get asked
      for "X-Real-IP" looks the map up under "X-Real-Ip". */
  lemma RealIPHeaderName()
    ensures CanonicalKey("X-Real-IP") == "X-Real-Ip"
  {
    var s, e := "X-Real-IP", "X-Real-Ip";
    assert IsToken(s) by {
      forall i | 0 <= i < |s| ensures IsTokenChar(s[i]) {
        assert s[i] in "X-RealIP";
      }
    }
    forall i | 0 <= i < |s| ensures e[i] == CanonicalAt(s, i, true) {
      assert i == 0 || i == 1 || i == 2 || i == 3 || i == 4 || i == 5 || i == 6 || i == 7 || i == 8;
    }
    CanonicalKeyIs(s, e);
  }

  lemma ForwardedForHeaderName()
    ensures CanonicalKey("X-Forwarded-For") == "X-Forwarded-For"
  {
    var s := "X-Forwarded-For";
    assert IsToken(s) by {
      forall i | 0 <= i < |s| ensures IsTokenChar(s[i]) {
        assert s[i] in "X-Forwade";
      }
    }
    forall i | 0 <= i < |s| ensures s[i] == CanonicalAt(s, i, true) {
      assert i in {0, 1, 2, 3, 4, 5, 6, 7, 8, 9, 10, 11, 12, 13, 14};
    }
    CanonicalKeyIs(s, s);
  }

  /** "X-Caddy-Ban" is already canonical, so indexing the map with it finds
      the same entry as Get would. */
  lemma BanMarkerHeaderName()
    ensures CanonicalKey("X-Caddy-Ban") == "X-Caddy-Ban"
  {
    var s := "X-Caddy-Ban";
    assert IsToken(s) by {
      forall i | 0 <= i < |s| ensures IsTokenChar(s[i]) {
        assert s[i] in "X-CadyBn";
      }
    }
    forall i | 0 <= i < |s| ensures s[i] == CanonicalAt(s, i, true) {
      assert i in {0, 1, 2, 3, 4, 5, 6, 7, 8, 9, 10};
    }
    CanonicalKeyIs(s, s);
  }
}
