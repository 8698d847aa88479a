/**
 * The methods of Python's `str` that the IRC helpers in bot/utils.py rely on,
 * modelled on `string` (a sequence of Unicode scalar values):
 * `s.find(p)`, `s.split(sep)`, `s.split(sep, 1)`, `s.split()`,
 * `s.strip()` and `sep.join(parts)`.
 */
module PyStr {

  /** Python's whitespace, as used by `str.split()` and `str.strip()` without arguments. */
  predicate IsSpace(c: char) {
    || ('\t' <= c <= '\r')
    || ('\U{1c}' <= c <= ' ')
    || c == '\U{85}' || c == '\U{a0}' || c == '\U{1680}'
    || ('\U{2000}' <= c <= '\U{200a}')
    || c == '\U{2028}' || c == '\U{2029}' || c == '\U{202f}' || c == '\U{205f}' || c == '\U{3000}'
  }

  predicate AllSpace(s: string) {
    forall i :: 0 <= i < |s| ==> IsSpace(s[i])
  }

  /** A non-empty run of non-whitespace characters: what `str.split()` produces. */
  predicate IsToken(s: string) {
    s != [] && forall i :: 0 <= i < |s| ==> !IsSpace(s[i])
  }

  /** `p` occurs in `s` starting at index `j`. */
  predicate OccursAt(s: string, p: string, j: int) {
    0 <= j && j + |p| <= |s| && s[j..j + |p|] == p
  }

  lemma OccursAtTail(s: string, p: string, j: nat)
    requires s != []
    ensures OccursAt(s, p, j + 1) <==> OccursAt(s[1..], p, j)
  {
    if j + 1 + |p| <= |s| {
      assert s[1..][j..j + |p|] == s[j + 1..j + 1 + |p|];
    }
  }

  /** `s.find(p)`: the first index at which `p` occurs in `s`, or -1. */
  function Find(s: string, p: string): (i: int)
    ensures -1 <= i <= |s|
    ensures i >= 0 ==> OccursAt(s, p, i)
    ensures forall j :: 0 <= j && (i < 0 || j < i) ==> !OccursAt(s, p, j)
    decreases |s|
  {
    if |s| < |p| then -1
    else if s[..|p|] == p then 0
    else
      var k := Find(s[1..], p);
      assert !OccursAt(s, p, 0) by {
        assert s[0..|p|] == s[..|p|];
      }
      assert forall j :: 1 <= j ==> (OccursAt(s, p, j) <==> OccursAt(s[1..], p, j - 1)) by {
        forall j | 1 <= j ensures OccursAt(s, p, j) <==> OccursAt(s[1..], p, j - 1) {
          OccursAtTail(s, p, j - 1);
        }
      }
      if k < 0 then -1 else k + 1
  }

  /** `s.find(p) != -1`, the test bot/utils.py makes for `" :"`; used throughout as "`s` contains `p`". */
  predicate Contains(s: string, p: string) {
    Find(s, p) >= 0
  }

  lemma ContainsChar(s: string, c: char)
    ensures Contains(s, [c]) <==> c in s
  {
    if c in s {
      var j :| 0 <= j < |s| && s[j] == c;
      assert OccursAt(s, [c], j);
    }
    var i := Find(s, [c]);
    assert i >= 0 ==> s[i] == s[i..i + 1][0] == c;
  }

  /** A two-character pattern `[x, y]` is absent from `s` exactly when no `x` is followed by `y`. */
  lemma ContainsPair(s: string, x: char, y: char)
    ensures !Contains(s, [x, y]) <==> forall i :: 0 <= i < |s| - 1 ==> !(s[i] == x && s[i + 1] == y)
  {
    if exists i :: 0 <= i < |s| - 1 && s[i] == x && s[i + 1] == y {
      var i :| 0 <= i < |s| - 1 && s[i] == x && s[i + 1] == y;
      assert OccursAt(s, [x, y], i);
    }
    var i := Find(s, [x, y]);
    assert i >= 0 ==> s[i] == s[i..i + 2][0] == x && s[i + 1] == s[i..i + 2][1] == y;
  }

  /** Nothing occurs in a prefix that ends at the first occurrence. */
  lemma NotContainsBeforeFind(s: string, p: string)
    requires p != [] && Find(s, p) >= 0
    ensures !Contains(s[..Find(s, p)], p)
  {
    var i := Find(s, p);
    var t := s[..i];
    if Contains(t, p) {
      var j := Find(t, p);
      assert t[j..j + |p|] == s[j..j + |p|];
      assert OccursAt(s, p, j);
    }
  }

  /**
   * The first occurrence of `p` in `a + p + t` is the one right after `a`, when `a`
   * holds none and `p` cannot straddle the end of `a` (a single character, or two
   * different characters, as `" "`, `"!"`, `" :"` and `"\r\n"` are).
   */
  lemma FindAfter(a: string, p: string, t: string)
    requires |p| == 1 || (|p| == 2 && p[0] != p[1])
    requires !Contains(a, p)
    ensures Find(a + p + t, p) == |a|
  {
    var s := a + p + t;
    assert OccursAt(s, p, |a|) by {
      assert s[|a|..|a| + |p|] == p;
    }
    forall j | 0 <= j && j + |p| <= |a|
      ensures !OccursAt(s, p, j)
    {
      assert !OccursAt(a, p, j);
      assert s[j..j + |p|] == a[j..j + |p|];
    }
  }

  /** `sep.join(parts)`. */
  function JoinWith(parts: seq<string>, sep: string): string
  {
    if parts == [] then ""
    else if |parts| == 1 then parts[0]
    else parts[0] + sep + JoinWith(parts[1..], sep)
  }

  /** `s.split(sep)`: the pieces between the occurrences of `sep`, scanning from the left. */
  function SplitOn(s: string, sep: string): (parts: seq<string>)
    requires sep != []
    ensures |parts| >= 1
    decreases |s|
  {
    var i := Find(s, sep);
    if i < 0 then [s]
    else [s[..i]] + SplitOn(s[i + |sep|..], sep)
  }

  /** Joining the pieces of `s.split(sep)` back with `sep` gives `s`, and no piece holds `sep`. */
  lemma {:induction false} SplitOnJoin(s: string, sep: string)
    requires sep != []
    ensures JoinWith(SplitOn(s, sep), sep) == s
    ensures forall k :: 0 <= k < |SplitOn(s, sep)| ==> !Contains(SplitOn(s, sep)[k], sep)
    decreases |s|
  {
    var i := Find(s, sep);
    if i >= 0 {
      var head, tail := s[..i], s[i + |sep|..];
      var parts := SplitOn(tail, sep);
      assert SplitOn(s, sep) == [head] + parts;
      NotContainsBeforeFind(s, sep);
      SplitOnJoin(tail, sep);
      assert JoinWith([head] + parts, sep) == head + sep + JoinWith(parts, sep) by {
        assert ([head] + parts)[1..] == parts;
      }
      assert s == head + sep + tail by {
        assert s[i..i + |sep|] == sep;
      }
      assert forall k :: 1 <= k < |parts| + 1 ==> ([head] + parts)[k] == parts[k - 1];
    }
  }

  /** Splitting `a + sep + t`, when `a` holds no `sep`, gives `a` and then the pieces of `t`. */
  lemma SplitOnAfter(a: string, sep: string, t: string)
    requires |sep| == 1 || (|sep| == 2 && sep[0] != sep[1])
    requires !Contains(a, sep)
    ensures SplitOn(a + sep + t, sep) == [a] + SplitOn(t, sep)
  {
    var s := a + sep + t;
    FindAfter(a, sep, t);
    assert s[..|a|] == a;
    assert s[|a| + |sep|..] == t;
  }

  /** `s.split(sep, 1)`: `[s]` when `sep` is absent, otherwise the text before and after its first occurrence. */
  function SplitOnce(s: string, sep: string): (parts: seq<string>)
    requires sep != []
    ensures 1 <= |parts| <= 2
    ensures |parts| == 1 <==> !Contains(s, sep)
    ensures |parts| == 1 ==> parts[0] == s
    ensures |parts| == 2 ==> s == parts[0] + sep + parts[1] && !Contains(parts[0], sep)
  {
    var i := Find(s, sep);
    if i < 0 then [s]
    else
      NotContainsBeforeFind(s, sep);
      assert s == s[..i] + sep + s[i + |sep|..] by {
        assert s[i..i + |sep|] == sep;
      }
      [s[..i], s[i + |sep|..]]
  }

  /** Splitting once at a separator placed after separator-free text gives back both sides. */
  lemma SplitOnceAfter(a: string, sep: string, t: string, s: string)
    requires |sep| == 1 || (|sep| == 2 && sep[0] != sep[1])
    requires !Contains(a, sep)
    requires s == a + (sep + t)
    ensures Contains(s, sep)
    ensures SplitOnce(s, sep) == [a, t]
  {
    assert s == a + sep + t;
    FindAfter(a, sep, t);
    assert s[..|a|] == a;
    assert s[|a| + |sep|..] == t;
  }

  /** `field` is the text of `s` before its first `c` (all of `s` when there is none). */
  predicate IsTextBefore(field: string, s: string, c: char) {
    |field| <= |s| && field == s[..|field|] && c !in field && (|field| < |s| ==> s[|field|] == c)
  }

  /** The text before the first `c` is unique. */
  lemma TextBeforeUnique(f: string, g: string, s: string, c: char)
    requires IsTextBefore(f, s, c) && IsTextBefore(g, s, c)
    ensures f == g
  {
  }

  /** In `a + [c] + b` with no `c` in `a`, the text before the first `c` is `a`, and `b` follows it. */
  lemma TextBeforeSeparator(a: string, c: char, b: string, f: string)
    requires c !in a && IsTextBefore(f, a + [c] + b, c)
    ensures f == a && (a + [c] + b)[|f| + 1..] == b
  {
    TextBeforeUnique(f, a, a + [c] + b, c);
  }

  /** `s.split(c)[0]` is the text before the first `c`. */
  lemma {:induction false} SplitOnHead(s: string, c: char)
    ensures IsTextBefore(SplitOn(s, [c])[0], s, c)
  {
    var i := Find(s, [c]);
    var h := SplitOn(s, [c])[0];
    SplitOnJoin(s, [c]);
    ContainsChar(s, c);
    ContainsChar(h, c);
    if i >= 0 {
      assert s[i..i + 1] == [c];
    }
  }

  /** `sep.join(s.split(c)[1:])` with `sep == c` is the text after the first `c`, inner runs kept. */
  lemma {:induction false} SplitOnTail(s: string, c: char)
    ensures c !in s ==> JoinWith(SplitOn(s, [c])[1..], [c]) == ""
    ensures c in s ==> var parts := SplitOn(s, [c]);
      |parts[0]| < |s| && JoinWith(parts[1..], [c]) == s[|parts[0]| + 1..]
  {
    ContainsChar(s, c);
    var i := Find(s, [c]);
    if i >= 0 {
      var parts := SplitOn(s, [c]);
      assert parts[1..] == SplitOn(s[i + 1..], [c]);
      SplitOnJoin(s[i + 1..], [c]);
    }
  }

  /** The length of the leading run of non-whitespace characters of `s`. */
  function TokenLength(s: string): (n: nat)
    ensures n <= |s|
    ensures forall i :: 0 <= i < n ==> !IsSpace(s[i])
    ensures n < |s| ==> IsSpace(s[n])
  {
    if s == [] || IsSpace(s[0]) then 0 else 1 + TokenLength(s[1..])
  }

  /** `s.split()`: the maximal runs of non-whitespace characters, in order. */
  function SplitWhitespace(s: string): (tokens: seq<string>)
    ensures forall k :: 0 <= k < |tokens| ==> IsToken(tokens[k])
    decreases |s|
  {
    if s == [] then []
    else if IsSpace(s[0]) then SplitWhitespace(s[1..])
    else
      var n := TokenLength(s);
      [s[..n]] + SplitWhitespace(s[n..])
  }

  /** `s.split()` is empty exactly for a blank string. */
  lemma {:induction false} SplitWhitespaceEmpty(s: string)
    ensures SplitWhitespace(s) == [] <==> AllSpace(s)
    decreases |s|
  {
    if s != [] && IsSpace(s[0]) {
      SplitWhitespaceEmpty(s[1..]);
      assert AllSpace(s) <==> AllSpace(s[1..]) by {
        if AllSpace(s[1..]) {
          forall i | 0 <= i < |s| ensures IsSpace(s[i]) {
            if i > 0 { assert s[i] == s[1..][i - 1]; }
          }
        }
      }
    }
  }

  /** The tokens together hold every non-whitespace character of `s`, in order. */
  function NonSpace(s: string): string
  {
    if s == [] then ""
    else (if IsSpace(s[0]) then "" else [s[0]]) + NonSpace(s[1..])
  }

  lemma {:induction false} NonSpaceAppend(a: string, b: string)
    ensures NonSpace(a + b) == NonSpace(a) + NonSpace(b)
  {
    if a != [] {
      assert (a + b)[0] == a[0] && (a + b)[1..] == a[1..] + b;
      calc {
        NonSpace(a + b);
        (if IsSpace(a[0]) then "" else [a[0]]) + NonSpace(a[1..] + b);
        { NonSpaceAppend(a[1..], b); }
        (if IsSpace(a[0]) then "" else [a[0]]) + NonSpace(a[1..]) + NonSpace(b);
        NonSpace(a) + NonSpace(b);
      }
    } else {
      assert a + b == b;
    }
  }

  lemma {:induction false} NonSpaceOfToken(t: string)
    requires forall i :: 0 <= i < |t| ==> !IsSpace(t[i])
    ensures NonSpace(t) == t
  {
    if t != [] {
      NonSpaceOfToken(t[1..]);
    }
  }

  function Concat(parts: seq<string>): string
  {
    if parts == [] then "" else parts[0] + Concat(parts[1..])
  }

  lemma {:induction false} SplitWhitespaceKeepsText(s: string)
    ensures Concat(SplitWhitespace(s)) == NonSpace(s)
    decreases |s|
  {
    if s == [] {
    } else if IsSpace(s[0]) {
      SplitWhitespaceKeepsText(s[1..]);
    } else {
      var n := TokenLength(s);
      assert s == s[..n] + s[n..];
      NonSpaceAppend(s[..n], s[n..]);
      NonSpaceOfToken(s[..n]);
      SplitWhitespaceKeepsText(s[n..]);
      assert SplitWhitespace(s)[1..] == SplitWhitespace(s[n..]);
    }
  }

  lemma {:induction false} TokenLengthOfToken(t: string, rest: string)
    requires forall i :: 0 <= i < |t| ==> !IsSpace(t[i])
    requires rest == [] || IsSpace(rest[0])
    ensures TokenLength(t + rest) == |t|
  {
    if t != [] {
      assert (t + rest)[1..] == t[1..] + rest;
      TokenLengthOfToken(t[1..], rest);
    }
  }

  /** `s.split()` skips leading whitespace: a run of it separates nothing. */
  lemma {:induction false} SplitWhitespaceSkipsSpace(w: string, s: string)
    requires AllSpace(w)
    ensures SplitWhitespace(w + s) == SplitWhitespace(s)
    decreases |w|
  {
    if w == [] {
      assert w + s == s;
    } else {
      assert (w + s)[0] == w[0] && (w + s)[1..] == w[1..] + s;
      SplitWhitespaceSkipsSpace(w[1..], s);
    }
  }

  /** `s.split()` never cuts a run of non-whitespace: a whole token before whitespace or the end is one piece. */
  lemma SplitWhitespaceTakesToken(t: string, r: string)
    requires IsToken(t)
    requires r == [] || IsSpace(r[0])
    ensures SplitWhitespace(t + r) == [t] + SplitWhitespace(r)
  {
    var s := t + r;
    TokenLengthOfToken(t, r);
    assert s[0] == t[0];
    assert s[..|t|] == t && s[|t|..] == r;
  }

  /** Tokens joined with single spaces split back into the same tokens. */
  lemma {:induction false} SplitWhitespaceJoin(tokens: seq<string>)
    requires forall k :: 0 <= k < |tokens| ==> IsToken(tokens[k])
    ensures SplitWhitespace(JoinWith(tokens, " ")) == tokens
  {
    if tokens == [] {
    } else {
      var t := tokens[0];
      var rest := if |tokens| == 1 then "" else " " + JoinWith(tokens[1..], " ");
      var s := t + rest;
      assert JoinWith(tokens, " ") == s;
      TokenLengthOfToken(t, rest);
      assert s[..|t|] == t && s[|t|..] == rest;
      if |tokens| > 1 {
        assert rest[1..] == JoinWith(tokens[1..], " ");
        SplitWhitespaceJoin(tokens[1..]);
      }
    }
  }

  /** The first half of `s.strip()`: the suffix of `s` after its leading whitespace. */
  function StripLeft(s: string): (r: string)
    ensures |r| <= |s| && r == s[|s| - |r|..]
    ensures AllSpace(s[..|s| - |r|])
    ensures r != [] ==> !IsSpace(r[0])
  {
    if s != [] && IsSpace(s[0]) then
      var r := StripLeft(s[1..]);
      var n := |s| - |r|;
      assert s[1..][n - 1..] == s[n..];
      assert forall i :: 1 <= i < n ==> s[..n][i] == s[1..][..n - 1][i - 1];
      r
    else s
  }

  /** The second half of `s.strip()`: the prefix of `s` before its trailing whitespace. */
  function StripRight(s: string): (r: string)
    ensures |r| <= |s| && r == s[..|r|]
    ensures AllSpace(s[|r|..])
    ensures r != [] ==> !IsSpace(r[|r| - 1])
  {
    if s != [] && IsSpace(s[|s| - 1]) then
      var r := StripRight(s[..|s| - 1]);
      assert s[..|s| - 1][..|r|] == s[..|r|];
      assert s[|r|..] == s[..|s| - 1][|r|..] + [s[|s| - 1]];
      r
    else s
  }

  /** `r` is `s` with the leading `k` and all trailing whitespace removed, and starts and ends with non-whitespace. */
  predicate StrippedAt(s: string, r: string, k: int) {
    && 0 <= k <= |s| - |r|
    && r == s[k..k + |r|]
    && AllSpace(s[..k]) && AllSpace(s[k + |r|..])
    && (r != [] ==> !IsSpace(r[0]) && !IsSpace(r[|r| - 1]))
  }

  /** A string that is empty or starts and ends with non-whitespace is its own strip. */
  lemma StripUnchanged(s: string)
    requires s == [] || (!IsSpace(s[0]) && !IsSpace(s[|s| - 1]))
    ensures Strip(s) == s
  {
  }

  /** `s.strip()`. */
  function Strip(s: string): (r: string)
    ensures exists k :: StrippedAt(s, r, k)
  {
    var l := StripLeft(s);
    var r := StripRight(l);
    StripHalves(s, l, r);
    r
  }

  /** Cutting leading whitespace to `l`, then trailing whitespace to `r`, leaves `r` at offset `|s| - |l|`. */
  lemma StripHalves(s: string, l: string, r: string)
    requires |l| <= |s| && l == s[|s| - |l|..] && AllSpace(s[..|s| - |l|])
    requires l != [] ==> !IsSpace(l[0])
    requires |r| <= |l| && r == l[..|r|] && AllSpace(l[|r|..])
    requires r != [] ==> !IsSpace(r[|r| - 1])
    ensures StrippedAt(s, r, |s| - |l|)
  {
    var k := |s| - |l|;
    assert s[k..k + |r|] == r;
    assert s[k + |r|..] == l[|r|..];
  }
}
