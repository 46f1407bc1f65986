/** Text helpers shared by the decoder, the exporter and the daemon: Rust's `str::trim`,
    `str::starts_with` and `BufRead::read_line` stated over `seq<char>`. */
module Text {

  /** `char::is_whitespace`: the Unicode White_Space property, which `str::trim` strips. */
  predicate IsSpace(c: char)
    ensures c == ' ' || c == '\t' || c == '\n' || c == '\r' ==> IsSpace(c)
    ensures '!' <= c <= '~' ==> !IsSpace(c)
  {
    ('\U{0009}' <= c <= '\U{000D}') || c == ' ' || c == '\U{0085}' || c == '\U{00A0}'
    || c == '\U{1680}' || ('\U{2000}' <= c <= '\U{200A}') || c == '\U{2028}' || c == '\U{2029}'
    || c == '\U{202F}' || c == '\U{205F}' || c == '\U{3000}'
  }

  predicate AllSpace(s: string) {
    forall i :: 0 <= i < |s| ==> IsSpace(s[i])
  }

  /** Nothing left for `trim` to remove. */
  predicate Trimmed(s: string) {
    s == [] || (!IsSpace(s[0]) && !IsSpace(s[|s| - 1]))
  }

  /** `str::strip_prefix` succeeds: the text is the prefix followed by the rest. */
  predicate StartsWith(s: string, prefix: string)
    ensures StartsWith(s, prefix) <==> |prefix| <= |s| && s == prefix + s[|prefix|..]
  {
    |prefix| <= |s| && s[..|prefix|] == prefix
  }

  predicate EndsWith(s: string, suffix: string) {
    |suffix| <= |s| && s[|s| - |suffix|..] == suffix
  }

  /** `str::trim`: drop whitespace from both ends. Which end goes first does not matter. */
  function Trim(s: string): (r: string)
    ensures Trimmed(r)
    ensures |r| <= |s|
    decreases |s|
  {
    if s != [] && IsSpace(s[0]) then Trim(s[1..])
    else if s != [] && IsSpace(s[|s| - 1]) then Trim(s[..|s| - 1])
    else s
  }

  /** `t` stands at offset `i` of `s` with only whitespace before and after it. */
  predicate PaddedAt(s: string, i: nat, t: string) {
    i + |t| <= |s| && t == s[i..i + |t|]
    && (forall k :: 0 <= k < i ==> IsSpace(s[k]))
    && (forall k :: i + |t| <= k < |s| ==> IsSpace(s[k]))
  }

  lemma PaddedAtCons(s: string, i: nat, t: string)
    requires s != [] && IsSpace(s[0]) && PaddedAt(s[1..], i, t)
    ensures PaddedAt(s, i + 1, t)
  {
    var u := s[1..];
    assert u[i..i + |t|] == s[i + 1..i + 1 + |t|];
    forall k | 0 < k < |s| ensures s[k] == u[k - 1] { }
  }

  lemma PaddedAtSnoc(s: string, i: nat, t: string)
    requires s != [] && IsSpace(s[|s| - 1]) && PaddedAt(s[..|s| - 1], i, t)
    ensures PaddedAt(s, i, t)
  {
    var u := s[..|s| - 1];
    assert u[i..i + |t|] == s[i..i + |t|];
    forall k | 0 <= k < |s| - 1 ensures s[k] == u[k] { }
  }

  /** What `trim` keeps is a slice of its input with only whitespace around it. */
  lemma {:induction false} TrimSlice(s: string) returns (i: nat)
    ensures PaddedAt(s, i, Trim(s))
    decreases |s|
  {
    if s != [] && IsSpace(s[0]) {
      var j := TrimSlice(s[1..]);
      PaddedAtCons(s, j, Trim(s));
      i := j + 1;
    } else if s != [] && IsSpace(s[|s| - 1]) {
      i := TrimSlice(s[..|s| - 1]);
      PaddedAtSnoc(s, i, Trim(s));
    } else {
      i := 0;
      assert s[0..|s|] == s;
    }
  }

  /** `trim` leaves nothing exactly when every character is whitespace. */
  lemma {:induction false} TrimEmptyIffAllSpace(s: string)
    ensures Trim(s) == [] <==> AllSpace(s)
    decreases |s|
  {
    if s != [] && IsSpace(s[0]) {
      TrimEmptyIffAllSpace(s[1..]);
      assert AllSpace(s) <==> AllSpace(s[1..]) by {
        if AllSpace(s[1..]) {
          forall k | 0 < k < |s| ensures IsSpace(s[k]) { assert s[k] == s[1..][k - 1]; }
        }
      }
    } else if s != [] && IsSpace(s[|s| - 1]) {
      var u := s[..|s| - 1];
      TrimEmptyIffAllSpace(u);
      // s[0] is not whitespace, so neither s nor u is all whitespace.
      assert u[0] == s[0];
    }
  }

  /** Trimming removes exactly the whitespace around a trimmed core: `trim` is the left inverse of
      padding with whitespace. */
  lemma {:induction false} TrimPadded(pre: string, t: string, post: string)
    requires AllSpace(pre) && AllSpace(post) && Trimmed(t)
    ensures Trim(pre + t + post) == t
    decreases |pre| + |post|
  {
    var s := pre + t + post;
    if pre != [] {
      assert s[0] == pre[0];
      assert s[1..] == pre[1..] + t + post;
      TrimPadded(pre[1..], t, post);
    } else if t == [] && post != [] {
      assert s == post;
      assert s[1..] == pre + t + post[1..];
      TrimPadded(pre, t, post[1..]);
    } else if post != [] {
      assert s[0] == t[0];
      assert s[|s| - 1] == post[|post| - 1];
      assert s[..|s| - 1] == pre + t + post[..|post| - 1];
      TrimPadded(pre, t, post[..|post| - 1]);
    } else {
      assert s == t;
    }
  }

  /** `trim` is idempotent. */
  lemma TrimIdempotent(s: string)
    ensures Trim(Trim(s)) == Trim(s)
  {
    var t := Trim(s);
    assert [] + t + [] == t;
    TrimPadded([], t, []);
  }

  // ---------------------------------------------------------------------------------------
  // Lines, as `BufRead::read_line` returns them: each ends with its '\n', except possibly the
  // last one when the input does not end with a newline.

  predicate NewlineFree(s: string) {
    forall i :: 0 <= i < |s| ==> s[i] != '\n'
  }

  /** A line as `read_line` returns it: '\n' can only be its last character. */
  predicate OneLine(s: string) {
    forall i :: 0 <= i < |s| - 1 ==> s[i] != '\n'
  }

  /** Trimming a line that holds '\n' at most at its end leaves no '\n' at all. */
  lemma TrimInside(s: string)
    requires OneLine(s)
    ensures NewlineFree(Trim(s))
  {
    var t := Trim(s);
    var i := TrimSlice(s);
    forall j | 0 <= j < |t| ensures t[j] != '\n' {
      assert t[j] == s[i + j];
      if i + j == |s| - 1 {
        assert IsSpace('\n');
        assert j == |t| - 1;
      }
    }
  }

  /** Concatenation of a sequence of lines. */
  function Concat(ls: seq<string>): string {
    if ls == [] then [] else ls[0] + Concat(ls[1..])
  }

  /** Length of the first line of `s`, its '\n' included. */
  function LineLen(s: string): (n: nat)
    requires s != []
    ensures 1 <= n <= |s|
    ensures forall i :: 0 <= i < n - 1 ==> s[i] != '\n'
    ensures n == |s| || s[n - 1] == '\n'
  {
    if s[0] == '\n' || |s| == 1 then 1 else 1 + LineLen(s[1..])
  }

  /** The successive results of `read_line` on a reader holding `s`, up to end of input. */
  function SplitLines(s: string): (r: seq<string>)
    ensures |r| <= |s|
    ensures r == [] <==> s == []
    decreases |s|
  {
    if s == [] then []
    else
      var n := LineLen(s);
      [s[..n]] + SplitLines(s[n..])
  }

  /** Putting the lines back together gives the input: no character is lost or added. */
  lemma {:induction false} SplitLinesConcat(s: string)
    ensures Concat(SplitLines(s)) == s
    decreases |s|
  {
    if s != [] {
      var n := LineLen(s);
      SplitLinesConcat(s[n..]);
      var r, rest := SplitLines(s), SplitLines(s[n..]);
      assert r == [s[..n]] + rest;
      assert r[0] == s[..n] && r[1..] == rest;
      assert Concat(r) == s[..n] + Concat(rest);
      assert Concat(rest) == s[n..];
      TakeDrop(s, n);
    }
  }

  /** What `read_line` returns, line after line: every line is non-empty and holds '\n' at most as
      its last character; all but the last one end with '\n'. */
  predicate ReadLines(r: seq<string>) {
    (forall k :: 0 <= k < |r| ==> r[k] != [] && OneLine(r[k]))
    && (forall k :: 0 <= k < |r| - 1 ==> r[k][|r[k]| - 1] == '\n')
  }

  lemma {:induction false} SplitLinesShape(s: string)
    ensures ReadLines(SplitLines(s))
    decreases |s|
  {
    if s != [] {
      var n := LineLen(s);
      SplitLinesShape(s[n..]);
      var r, rest := SplitLines(s), SplitLines(s[n..]);
      assert r == [s[..n]] + rest;
      assert OneLine(s[..n]) by {
        forall i | 0 <= i < n - 1 ensures s[..n][i] != '\n' { }
      }
      forall k | 0 <= k < |r| ensures r[k] != [] && OneLine(r[k]) {
        if k > 0 { assert r[k] == rest[k - 1]; }
      }
      forall k | 0 <= k < |r| - 1 ensures r[k][|r[k]| - 1] == '\n' {
        if k > 0 {
          assert r[k] == rest[k - 1];
        } else {
          assert s[..n][n - 1] == '\n';
        }
      }
    }
  }

  lemma {:induction false} LineLenAppend(a: string, b: string)
    requires a != [] && a[|a| - 1] == '\n'
    ensures LineLen(a + b) == LineLen(a)
    decreases |a|
  {
    if a[0] != '\n' {
      assert (a + b)[1..] == a[1..] + b;
      LineLenAppend(a[1..], b);
    }
  }

  lemma TakeDrop<T>(s: seq<T>, n: nat)
    requires n <= |s|
    ensures s[..n] + s[n..] == s
  {
  }

  lemma ConcatAssoc<T>(x: seq<T>, y: seq<T>, z: seq<T>)
    ensures x + (y + z) == (x + y) + z
  {
  }

  /** Text after a complete first line does not change that line. */
  lemma FirstLineAppend(a: string, b: string)
    requires a != [] && a[|a| - 1] == '\n'
    ensures var n := LineLen(a);
      SplitLines(a + b) == [a[..n]] + SplitLines(a[n..] + b)
  {
    var n := LineLen(a);
    LineLenAppend(a, b);
    assert (a + b)[..n] == a[..n];
    assert (a + b)[n..] == a[n..] + b;
  }

  /** Reading lines is compositional at line boundaries. */
  lemma {:induction false} SplitLinesAppend(a: string, b: string)
    requires a == [] || a[|a| - 1] == '\n'
    ensures SplitLines(a + b) == SplitLines(a) + SplitLines(b)
    decreases |a|
  {
    if a == [] {
      assert a + b == b;
    } else {
      var n := LineLen(a);
      FirstLineAppend(a, b);
      var rest := a[n..];
      assert rest == [] || rest[|rest| - 1] == '\n';
      SplitLinesAppend(rest, b);
      ConcatAssoc([a[..n]], SplitLines(rest), SplitLines(b));
    }
  }

  /** A newline-free text followed by one '\n' reads back as exactly one line. */
  lemma SplitOneLine(t: string)
    requires NewlineFree(t)
    ensures SplitLines(t + "\n") == [t + "\n"]
  {
    var s := t + "\n";
    assert s[|t|] == '\n';
    assert LineLen(s) == |s|;
    assert s[LineLen(s)..] == [];
    assert s[..LineLen(s)] == s;
  }
}
