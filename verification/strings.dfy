/**
 Python 3 string helpers used by the CSV result class: `str.isspace`,
 `str.strip()` and `str.split()` with no arguments. Strings are `seq<char>`
 with Unicode scalar values as characters.
 */
module Strings {

  /** A character Python 3's `str.isspace()` accepts; `split()` and `strip()`
      without arguments break on exactly these. */
  predicate IsSpace(c: char) {
    || c == ' ' || c == '\t' || c == '\n' || c == '\r'
    || c == '\U{000B}' || c == '\U{000C}'
    || ('\U{001C}' <= c <= '\U{001F}')
    || c == '\U{0085}' || c == '\U{00A0}' || c == '\U{1680}'
    || ('\U{2000}' <= c <= '\U{200A}')
    || c == '\U{2028}' || c == '\U{2029}' || c == '\U{202F}'
    || c == '\U{205F}' || c == '\U{3000}'
  }

  predicate AllSpace(s: string) {
    forall i :: 0 <= i < |s| ==> IsSpace(s[i])
  }

  predicate NoSpace(s: string) {
    forall i :: 0 <= i < |s| ==> !IsSpace(s[i])
  }

  /** Number of leading whitespace characters of `s`. */
  function LeadingSpace(s: string): (n: nat)
    ensures n <= |s|
    ensures forall i :: 0 <= i < n ==> IsSpace(s[i])
    ensures n < |s| ==> !IsSpace(s[n])
  {
    if |s| > 0 && IsSpace(s[0]) then 1 + LeadingSpace(s[1..]) else 0
  }

  /** Number of trailing whitespace characters of `s`. */
  function TrailingSpace(s: string): (n: nat)
    ensures n <= |s|
    ensures forall i :: |s| - n <= i < |s| ==> IsSpace(s[i])
    ensures n < |s| ==> !IsSpace(s[|s| - 1 - n])
  {
    if |s| > 0 && IsSpace(s[|s| - 1]) then 1 + TrailingSpace(s[..|s| - 1]) else 0
  }

  /** `s.lstrip()`. */
  function StripLeft(s: string): string {
    s[LeadingSpace(s)..]
  }

  /** `s.rstrip()`. */
  function StripRight(s: string): string {
    s[..|s| - TrailingSpace(s)]
  }

  /** `s.strip()`: `s` without its leading and trailing whitespace. */
  function Strip(s: string): (r: string)
    ensures |r| == 0 || (!IsSpace(r[0]) && !IsSpace(r[|r| - 1]))
    ensures |r| == 0 <==> AllSpace(s)
  {
    StripEnds(s);
    StripRight(StripLeft(s))
  }

  lemma StripEnds(s: string)
    ensures var r := StripRight(StripLeft(s));
            && (|r| == 0 || (!IsSpace(r[0]) && !IsSpace(r[|r| - 1])))
            && (|r| == 0 <==> AllSpace(s))
  {
    var a := LeadingSpace(s);
    var l := s[a..];
    var b := TrailingSpace(l);
    var r := l[..|l| - b];
    assert StripRight(StripLeft(s)) == r;
    if a < |s| {
      assert l[0] == s[a];
    }
    if |r| > 0 {
      assert r[0] == s[a];
      assert r[|r| - 1] == l[|l| - 1 - b];
    }
  }

  /** The leading whitespace count is the only count with its defining
      properties. */
  lemma LeadingSpaceIs(s: string, n: nat)
    requires n <= |s|
    requires forall i :: 0 <= i < n ==> IsSpace(s[i])
    requires n < |s| ==> !IsSpace(s[n])
    ensures LeadingSpace(s) == n
  {
  }

  lemma TrailingSpaceIs(s: string, n: nat)
    requires n <= |s|
    requires forall i :: |s| - n <= i < |s| ==> IsSpace(s[i])
    requires n < |s| ==> !IsSpace(s[|s| - 1 - n])
    ensures TrailingSpace(s) == n
  {
  }

  /** `strip()` returns the core of any string made of whitespace, a core that
      starts and ends with a non-whitespace character, and whitespace. */
  lemma StripUnique(p: string, t: string, q: string)
    requires AllSpace(p) && AllSpace(q)
    requires |t| > 0 && !IsSpace(t[0]) && !IsSpace(t[|t| - 1])
    ensures Strip(p + t + q) == t
  {
    var s := p + t + q;
    forall i | 0 <= i < |p|
      ensures IsSpace(s[i])
    {
      assert s[i] == p[i];
    }
    assert s[|p|] == t[0];
    LeadingSpaceIs(s, |p|);
    var l := s[|p|..];
    assert l == t + q;
    forall i | |l| - |q| <= i < |l|
      ensures IsSpace(l[i])
    {
      assert l[i] == q[i - |t|];
    }
    assert l[|l| - 1 - |q|] == t[|t| - 1];
    TrailingSpaceIs(l, |q|);
    assert l[..|l| - |q|] == t;
  }

  /** Every string is its leading whitespace, its stripped core and its
      trailing whitespace, in that order. */
  lemma StripSplitsString(s: string) returns (p: string, q: string)
    ensures AllSpace(p) && AllSpace(q)
    ensures s == p + Strip(s) + q
  {
    var a := LeadingSpace(s);
    var l := s[a..];
    var b := TrailingSpace(l);
    var c := |s| - b;
    assert Strip(s) == s[a..c];
    p, q := s[..a], s[c..];
    forall i | 0 <= i < |q|
      ensures IsSpace(q[i])
    {
      assert q[i] == l[|l| - b + i];
    }
    SliceThree(s, a, c);
  }

  lemma SliceThree<T>(s: seq<T>, a: nat, c: nat)
    requires a <= c <= |s|
    ensures s == s[..a] + s[a..c] + s[c..]
  {
  }

  lemma AllSpaceConcat(x: string, y: string)
    requires AllSpace(x) && AllSpace(y)
    ensures AllSpace(x + y)
  {
    forall i | 0 <= i < |x + y|
      ensures IsSpace((x + y)[i])
    {
      if i >= |x| {
        assert (x + y)[i] == y[i - |x|];
      }
    }
  }

  /** Whitespace around a cell does not change its stripped text. */
  lemma StripIgnoresPadding(p: string, s: string, q: string)
    requires AllSpace(p) && AllSpace(q)
    ensures Strip(p + s + q) == Strip(s)
  {
    if AllSpace(s) {
      AllSpaceConcat(p, s);
      AllSpaceConcat(p + s, q);
    } else {
      PaddedCore(p, s, q);
    }
  }

  lemma PaddedCore(p: string, s: string, q: string)
    requires AllSpace(p) && AllSpace(q) && !AllSpace(s)
    ensures Strip(p + s + q) == Strip(s)
  {
    var p', q' := StripSplitsString(s);
    var t := Strip(s);
    AllSpaceConcat(p, p');
    AllSpaceConcat(q', q);
    Regroup(p, p', t, q', q);
    StripUnique(p + p', t, q' + q);
  }

  lemma Regroup<T>(p: seq<T>, a: seq<T>, b: seq<T>, c: seq<T>, q: seq<T>)
    ensures p + (a + b + c) + q == (p + a) + b + (c + q)
  {
  }

  /** A string with no surrounding whitespace is its own strip. */
  lemma StripTrimmed(s: string)
    requires |s| == 0 || (!IsSpace(s[0]) && !IsSpace(s[|s| - 1]))
    ensures Strip(s) == s
  {
    if |s| > 0 {
      assert "" + s + "" == s;
      StripUnique("", s, "");
    }
  }

  /** Number of leading non-whitespace characters of `s`. */
  function WordLength(s: string): (n: nat)
    ensures n <= |s| && NoSpace(s[..n])
    ensures n == |s| || IsSpace(s[n])
  {
    if |s| > 0 && !IsSpace(s[0]) then
      var n := 1 + WordLength(s[1..]);
      assert s[..n] == [s[0]] + s[1..][..n - 1];
      n
    else
      0
  }

  predicate IsToken(t: string) {
    |t| > 0 && NoSpace(t)
  }

  /** `s.split()`: the maximal runs of non-whitespace characters, in order. */
  function Split(s: string): (r: seq<string>)
    ensures forall k :: 0 <= k < |r| ==> IsToken(r[k])
    decreases |s|
  {
    var t := StripLeft(s);
    if |t| == 0 then
      []
    else
      var n := WordLength(t);
      FirstToken(t);
      var rest := Split(t[n..]);
      ConsTokens(t[..n], rest);
      [t[..n]] + rest
  }

  /** The first run of non-whitespace of a string that starts with one is a token. */
  lemma FirstToken(t: string)
    requires |t| > 0 && !IsSpace(t[0])
    ensures 0 < WordLength(t) && IsToken(t[..WordLength(t)])
  {
  }

  lemma ConsTokens(h: string, ts: seq<string>)
    requires IsToken(h) && forall k :: 0 <= k < |ts| ==> IsToken(ts[k])
    ensures forall k :: 0 <= k < |[h] + ts| ==> IsToken(([h] + ts)[k])
  {
    forall k | 0 <= k < |[h] + ts|
      ensures IsToken(([h] + ts)[k])
    {
      if k > 0 {
        assert ([h] + ts)[k] == ts[k - 1];
      }
    }
  }

  /** Tokens joined by single spaces, the inverse of `Split` on well-formed tokens. */
  function Join(ts: seq<string>): string {
    if |ts| == 0 then ""
    else if |ts| == 1 then ts[0]
    else ts[0] + (" " + Join(ts[1..]))
  }

  lemma SplitBlank(s: string)
    ensures |Split(s)| == 0 <==> AllSpace(s)
  {
    var a := LeadingSpace(s);
    if a < |s| {
      assert StripLeft(s)[0] == s[a];
    }
  }

  /** A leading whitespace character of any kind is ignored by `Split`. */
  lemma SplitSkipsSpace(c: char, s: string)
    requires IsSpace(c)
    ensures Split([c] + s) == Split(s)
  {
    var x := [c] + s;
    assert x[1..] == s;
    assert LeadingSpace(x) == 1 + LeadingSpace(s);
    assert x[LeadingSpace(x)..] == s[LeadingSpace(s)..];
  }

  /** Any run of leading whitespace is ignored by `Split`. */
  lemma {:induction false} SplitSkipsPadding(p: string, s: string)
    requires AllSpace(p)
    ensures Split(p + s) == Split(s)
    decreases |p|
  {
    if |p| > 0 {
      var tail := p[1..];
      assert p + s == [p[0]] + (tail + s);
      SplitSkipsSpace(p[0], tail + s);
      assert forall i :: 0 <= i < |tail| ==> tail[i] == p[i + 1];
      SplitSkipsPadding(tail, s);
    } else {
      assert p + s == s;
    }
  }

  /** The first piece `Split` yields is the first run of non-whitespace,
      whatever whitespace precedes it. With `SplitBlank` this fixes `Split`
      on every string: a string is either all whitespace, or whitespace, a
      token, and a rest that is empty or starts with whitespace. */
  lemma SplitFirstWord(p: string, t: string, rest: string)
    requires AllSpace(p) && IsToken(t)
    requires |rest| == 0 || IsSpace(rest[0])
    ensures Split(p + t + rest) == [t] + Split(rest)
  {
    assert p + t + rest == p + (t + rest);
    SplitSkipsPadding(p, t + rest);
    SplitToken(t, rest);
  }

  /** A string holds at least two runs of non-whitespace: a non-whitespace
      character, later a whitespace character, later a non-whitespace one. */
  predicate TwoWords(s: string) {
    exists a, b, c :: 0 <= a < b < c < |s| && !IsSpace(s[a]) && IsSpace(s[b]) && !IsSpace(s[c])
  }

  /** `len(s.split()) > 1` exactly when `s` holds two separated runs of
      non-whitespace. */
  lemma SplitTwoWords(s: string)
    ensures |Split(s)| >= 2 <==> TwoWords(s)
  {
    if |StripLeft(s)| > 0 {
      SplitAfterFirstWord(s);
      SecondWordIsTwoWords(s);
      TwoWordsHasSecondWord(s);
    }
  }

  /** What follows the first run of non-whitespace of a string that has one. */
  function AfterFirstWord(s: string): (rest: string)
    requires |StripLeft(s)| > 0
    ensures |rest| == 0 || IsSpace(rest[0])
  {
    var t := StripLeft(s);
    t[WordLength(t)..]
  }

  lemma SplitAfterFirstWord(s: string)
    requires |StripLeft(s)| > 0
    ensures |Split(s)| >= 2 <==> !AllSpace(AfterFirstWord(s))
  {
    var t := StripLeft(s);
    var rest := AfterFirstWord(s);
    assert Split(s) == [t[..WordLength(t)]] + Split(rest);
    SplitBlank(rest);
  }

  lemma SecondWordIsTwoWords(s: string)
    requires |StripLeft(s)| > 0
    ensures !AllSpace(AfterFirstWord(s)) ==> TwoWords(s)
  {
    var rest := AfterFirstWord(s);
    if !AllSpace(rest) {
      var l := LeadingSpace(s);
      var t := StripLeft(s);
      var n := WordLength(t);
      var k :| 0 <= k < |rest| && !IsSpace(rest[k]);
      assert s[l] == t[0];
      assert s[l + n] == t[n];
      assert s[l + n + k] == rest[k];
    }
  }

  lemma TwoWordsHasSecondWord(s: string)
    requires |StripLeft(s)| > 0
    ensures TwoWords(s) ==> !AllSpace(AfterFirstWord(s))
  {
    if TwoWords(s) {
      var a, b, c :| 0 <= a < b < c < |s| && !IsSpace(s[a]) && IsSpace(s[b]) && !IsSpace(s[c]);
      SecondWordAt(s, a, b, c);
    }
  }

  lemma SecondWordAt(s: string, a: nat, b: nat, c: nat)
    requires |StripLeft(s)| > 0
    requires a < b < c < |s| && !IsSpace(s[a]) && IsSpace(s[b]) && !IsSpace(s[c])
    ensures !AllSpace(AfterFirstWord(s))
  {
    var e := AfterFirstWordAt(s);
    FirstWordSolid(s);
    assert LeadingSpace(s) <= a;
    assert e <= b;
    assert AfterFirstWord(s)[c - e] == s[c];
  }

  /** `AfterFirstWord(s)` is the suffix of `s` from the returned index on. */
  lemma AfterFirstWordAt(s: string) returns (e: nat)
    requires |StripLeft(s)| > 0
    ensures e == LeadingSpace(s) + WordLength(StripLeft(s)) <= |s|
    ensures AfterFirstWord(s) == s[e..]
  {
    e := LeadingSpace(s) + WordLength(StripLeft(s));
  }

  /** The first run of non-whitespace holds no whitespace. */
  lemma FirstWordSolid(s: string)
    requires |StripLeft(s)| > 0
    ensures var l := LeadingSpace(s);
            forall b :: l <= b < l + WordLength(StripLeft(s)) ==> !IsSpace(s[b])
  {
    var l := LeadingSpace(s);
    var t := StripLeft(s);
    var n := WordLength(t);
    forall b | l <= b < l + n
      ensures !IsSpace(s[b])
    {
      assert s[b] == t[..n][b - l];
    }
  }

  /** A token followed by whitespace (or nothing) is the first piece `Split` yields. */
  lemma SplitToken(t: string, rest: string)
    requires IsToken(t)
    requires |rest| == 0 || IsSpace(rest[0])
    ensures Split(t + rest) == [t] + Split(rest)
  {
    var x := t + rest;
    assert x[0] == t[0];
    assert LeadingSpace(x) == 0;
    assert StripLeft(x) == x;
    WordOfToken(t, rest);
    assert x[..|t|] == t;
    assert x[|t|..] == rest;
  }

  lemma SplitSingle(t: string)
    requires IsToken(t)
    ensures Split(t) == [t]
  {
    assert t + "" == t;
    SplitToken(t, "");
  }

  /** `Split` recovers single-space-joined tokens: `" ".join(ts).split() == ts`. */
  lemma {:induction false} SplitJoin(ts: seq<string>)
    requires forall k :: 0 <= k < |ts| ==> IsToken(ts[k])
    ensures Split(Join(ts)) == ts
    decreases |ts|
  {
    if |ts| == 1 {
      assert Join(ts) == ts[0];
      SplitSingle(ts[0]);
    } else if |ts| > 1 {
      var tail := ts[1..];
      assert forall k :: 0 <= k < |tail| ==> IsToken(tail[k]) by {
        forall k | 0 <= k < |tail| ensures IsToken(tail[k]) {
          assert tail[k] == ts[k + 1];
        }
      }
      var rest := " " + Join(tail);
      assert Join(ts) == ts[0] + rest;
      assert rest[0] == ' ';
      SplitToken(ts[0], rest);
      SplitSkipsSpace(' ', Join(tail));
      SplitJoin(tail);
      HeadTail(ts);
    }
  }

  lemma HeadTail<T>(s: seq<T>)
    requires |s| > 0
    ensures [s[0]] + s[1..] == s
  {
  }

  lemma {:induction false} WordOfToken(t: string, rest: string)
    requires IsToken(t)
    requires |rest| == 0 || IsSpace(rest[0])
    ensures WordLength(t + rest) == |t|
    decreases |t|
  {
    assert (t + rest)[0] == t[0];
    if |t| > 1 {
      assert (t + rest)[1..] == t[1..] + rest;
      WordOfToken(t[1..], rest);
    } else {
      assert (t + rest)[1..] == rest;
    }
  }
}
