/**
 * Whitespace tokenisation as done by Python 2's `str.split()` with no
 * argument: runs of whitespace separate tokens, leading and trailing
 * whitespace is dropped, and no token is empty.
 */
module Tokens {

  /** The whitespace of a Python 2 byte string in the C locale. */
  predicate IsSpace(c: char) {
    c == ' ' || c == '\t' || c == '\n' || c == '\r' || c == '\U{0B}' || c == '\U{0C}'
  }

  predicate NoSpace(s: string) {
    forall i :: 0 <= i < |s| ==> !IsSpace(s[i])
  }

  predicate AllSpace(s: string) {
    forall i :: 0 <= i < |s| ==> IsSpace(s[i])
  }

  /** A token as `split()` yields it: non-empty and free of whitespace. */
  predicate IsToken(t: string) {
    t != [] && NoSpace(t)
  }

  /** `t` is a contiguous piece of `s`, character for character. */
  ghost predicate OccursIn(t: string, s: string) {
    exists a, b :: 0 <= a <= b <= |s| && s[a..b] == t
  }

  /** Length of the whitespace-free run that starts `s`. */
  function WordLength(s: string): (n: nat)
    ensures n <= |s|
    ensures NoSpace(s[..n])
    ensures n < |s| ==> IsSpace(s[n])
  {
    if s == [] || IsSpace(s[0]) then 0 else 1 + WordLength(s[1..])
  }

  /** The tokens of `s`, left to right. */
  function Split(s: string): (r: seq<string>)
    ensures forall i :: 0 <= i < |r| ==> IsToken(r[i])
    decreases |s|
  {
    if s == [] then []
    else if IsSpace(s[0]) then Split(s[1..])
    else
      var n := WordLength(s);
      [s[..n]] + Split(s[n..])
  }

  /** The characters of `s` that are not whitespace, in order. */
  function Visible(s: string): (r: string)
    ensures NoSpace(r)
    ensures |r| <= |s|
  {
    if s == [] then []
    else (if IsSpace(s[0]) then [] else [s[0]]) + Visible(s[1..])
  }

  function Concat(ts: seq<string>): string {
    if ts == [] then [] else ts[0] + Concat(ts[1..])
  }

  lemma {:induction false} VisibleAppend(s: string, t: string)
    ensures Visible(s + t) == Visible(s) + Visible(t)
    decreases |s|
  {
    if s != [] {
      assert (s + t)[1..] == s[1..] + t;
      VisibleAppend(s[1..], t);
    } else {
      assert s + t == t;
    }
  }

  lemma {:induction false} VisibleOfSpace(s: string)
    requires AllSpace(s)
    ensures Visible(s) == []
    decreases |s|
  {
    if s != [] {
      VisibleOfSpace(s[1..]);
    }
  }

  lemma {:induction false} VisibleOfWord(s: string)
    requires NoSpace(s)
    ensures Visible(s) == s
    decreases |s|
  {
    if s != [] {
      VisibleOfWord(s[1..]);
      assert [s[0]] + s[1..] == s;
    }
  }

  /** Splitting loses nothing but whitespace: the tokens, glued back together, are the visible characters of the line. */
  lemma {:induction false} SplitKeepsVisibleText(s: string)
    ensures Concat(Split(s)) == Visible(s)
    decreases |s|
  {
    if s != [] {
      if IsSpace(s[0]) {
        SplitKeepsVisibleText(s[1..]);
      } else {
        var n := WordLength(s);
        var w, rest := s[..n], s[n..];
        assert s == w + rest;
        VisibleAppend(w, rest);
        VisibleOfWord(w);
        SplitKeepsVisibleText(rest);
        assert ([w] + Split(rest))[1..] == Split(rest);
      }
    }
  }

  /** A line of whitespace only has no tokens. */
  lemma {:induction false} SplitOfSpace(s: string)
    requires AllSpace(s)
    ensures Split(s) == []
    decreases |s|
  {
    if s != [] {
      SplitOfSpace(s[1..]);
    }
  }

  /** Every token is a verbatim piece of the line it came from. */
  lemma {:induction false} SplitTokensOccurInLine(s: string)
    ensures forall i :: 0 <= i < |Split(s)| ==> OccursIn(Split(s)[i], s)
    decreases |s|
  {
    if s != [] {
      var k := if IsSpace(s[0]) then 1 else WordLength(s);
      var rest := s[k..];
      SplitTokensOccurInLine(rest);
      forall i | 0 <= i < |Split(s)|
        ensures OccursIn(Split(s)[i], s)
      {
        if !IsSpace(s[0]) && i == 0 {
          assert s[0..k] == Split(s)[0];
        } else {
          var j := if IsSpace(s[0]) then i else i - 1;
          var t := Split(rest)[j];
          assert Split(s)[i] == t;
          var a, b :| 0 <= a <= b <= |rest| && rest[a..b] == t;
          assert s[k + a..k + b] == rest[a..b];
        }
      }
    }
  }

  /** A token followed by whitespace (or by nothing) is split off as it is. */
  lemma SplitWord(w: string, s: string)
    requires IsToken(w)
    requires s == [] || IsSpace(s[0])
    ensures Split(w + s) == [w] + Split(s)
  {
    var t := w + s;
    assert forall i :: 0 <= i < |w| ==> t[i] == w[i];
    assert |w| < |t| ==> t[|w|] == s[0];
    assert WordLength(t) == |w|;
    assert t[..|w|] == w;
    assert t[|w|..] == s;
  }
}
