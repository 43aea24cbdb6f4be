/**
 * Python's `str.split()` with no argument: a line is cut at runs of
 * whitespace, and leading or trailing whitespace (such as the newline that
 * `readlines` leaves on every line) yields no empty token.
 */
module Tokens {

  /** The characters for which Python's `str.isspace()` holds. */
  predicate IsSpace(c: char)
  {
    || c == ' '
    || '\t' <= c <= '\r'
    || '\U{1c}' <= c <= '\U{1f}'
    || c == '\U{85}' || c == '\U{a0}' || c == '\U{1680}'
    || '\U{2000}' <= c <= '\U{200a}'
    || c == '\U{2028}' || c == '\U{2029}' || c == '\U{202f}' || c == '\U{205f}' || c == '\U{3000}'
  }

  /** A token that `split()` can return: non-empty and free of whitespace. */
  predicate IsWord(w: string)
  {
    |w| > 0 && forall i :: 0 <= i < |w| ==> !IsSpace(w[i])
  }

  /** The length of the longest whitespace-free prefix of `s`. */
  function WordLength(s: string): (n: nat)
    ensures n <= |s|
    ensures forall i :: 0 <= i < n ==> !IsSpace(s[i])
    ensures n < |s| ==> IsSpace(s[n])
  {
    if s == [] || IsSpace(s[0]) then 0 else 1 + WordLength(s[1..])
  }

  /** `s.split()`. */
  function Split(s: string): (r: seq<string>)
    ensures forall k :: 0 <= k < |r| ==> IsWord(r[k])
    decreases |s|
  {
    if s == [] then []
    else if IsSpace(s[0]) then Split(s[1..])
    else
      var n := WordLength(s);
      [s[..n]] + Split(s[n..])
  }

  /** The characters of `s` that are not whitespace, in order. */
  function NonSpace(s: string): string
  {
    if s == [] then []
    else if IsSpace(s[0]) then NonSpace(s[1..])
    else [s[0]] + NonSpace(s[1..])
  }

  function Concat(ws: seq<string>): string
  {
    if ws == [] then [] else ws[0] + Concat(ws[1..])
  }

  /** `' '.join(ws) + '\n'`: the way a line of one of the data files is laid out. */
  function Line(ws: seq<string>): string
  {
    if ws == [] then "\n"
    else if |ws| == 1 then ws[0] + "\n"
    else ws[0] + " " + Line(ws[1..])
  }

  lemma {:induction false} NonSpaceAppend(a: string, b: string)
    ensures NonSpace(a + b) == NonSpace(a) + NonSpace(b)
    decreases |a|
  {
    if a == [] {
      assert a + b == b;
    } else {
      assert (a + b)[0] == a[0] && (a + b)[1..] == a[1..] + b;
      NonSpaceAppend(a[1..], b);
    }
  }

  lemma {:induction false} NonSpaceOfWordPrefix(s: string, n: nat)
    requires n <= |s|
    requires forall i :: 0 <= i < n ==> !IsSpace(s[i])
    ensures NonSpace(s[..n]) == s[..n]
    decreases n
  {
    if n > 0 {
      assert s[..n][1..] == s[1..][..n - 1];
      NonSpaceOfWordPrefix(s[1..], n - 1);
    }
  }

  /**
   * Splitting keeps every non-whitespace character, in line order: the
   * tokens, laid end to end, are the line with its whitespace removed.
   */
  lemma {:induction false} SplitKeepsCharacters(s: string)
    ensures Concat(Split(s)) == NonSpace(s)
    decreases |s|
  {
    if s != [] {
      if IsSpace(s[0]) {
        SplitKeepsCharacters(s[1..]);
      } else {
        var n := WordLength(s);
        assert s == s[..n] + s[n..];
        var r := Split(s);
        assert r[0] == s[..n] && r[1..] == Split(s[n..]);
        SplitKeepsCharacters(s[n..]);
        NonSpaceAppend(s[..n], s[n..]);
        NonSpaceOfWordPrefix(s, n);
      }
    }
  }

  /** A word followed by whitespace (or nothing) is split off as one token. */
  lemma SplitWordThen(w: string, s: string)
    requires IsWord(w)
    requires s == [] || IsSpace(s[0])
    ensures Split(w + s) == [w] + Split(s)
  {
    var t := w + s;
    var n := WordLength(t);
    assert !IsSpace(t[0]);
    assert forall i :: 0 <= i < |w| ==> t[i] == w[i];
    assert s != [] ==> t[|w|] == s[0];
    assert n == |w|;
    assert t[..n] == w && t[n..] == s;
  }

  /** Round trip: a line written as space-separated words splits back into those words. */
  lemma {:induction false} SplitLine(ws: seq<string>)
    requires forall k :: 0 <= k < |ws| ==> IsWord(ws[k])
    ensures Split(Line(ws)) == ws
  {
    if ws == [] {
      assert Split("\n") == Split("");
    } else if |ws| == 1 {
      SplitWordThen(ws[0], "\n");
      assert Split("\n") == Split("");
    } else {
      var rest := Line(ws[1..]);
      assert Line(ws) == ws[0] + (" " + rest);
      SplitWordThen(ws[0], " " + rest);
      assert (" " + rest)[1..] == rest;
      SplitLine(ws[1..]);
      assert ws == [ws[0]] + ws[1..];
    }
  }
}
