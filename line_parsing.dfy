/**
 * The two reading loops of `read_mimic2`: every line of a data file becomes
 * one sequence, `[conv(t) for t in line.split()]`, appended in line order.
 * `conv` is `float` for the time file and `int` for the event file; a token
 * it rejects raises ValueError, which ends the read.
 */
module LineParsing {
  import opened Wrappers
  import opened Tokens

  /** Where a read stopped: the line, the position of the token on that line, and the token. */
  datatype ParseError = BadToken(line: nat, position: nat, token: string)

  /**
   * `[conv(t) for t in tokens]`: every token converted, in order, or the
   * position of the first token `conv` rejects.
   */
  function ConvertAll<T>(tokens: seq<string>, conv: string -> Option<T>): (r: Result<seq<T>, nat>)
    ensures r.Ok? ==> |r.value| == |tokens|
    ensures r.Ok? ==> forall i :: 0 <= i < |tokens| ==> conv(tokens[i]) == Some(r.value[i])
    ensures r.Err? ==> r.error < |tokens| && conv(tokens[r.error]).None?
    ensures r.Err? ==> forall i :: 0 <= i < r.error ==> conv(tokens[i]).Some?
  {
    if tokens == [] then Ok([])
    else match conv(tokens[0])
      case None => Err(0)
      case Some(v) =>
        match ConvertAll(tokens[1..], conv)
        case Err(k) => Err(k + 1)
        case Ok(vs) => Ok([v] + vs)
  }

  /** One line of a data file, as the list comprehension over `line.split()` builds it. */
  function ParseLine<T>(line: string, conv: string -> Option<T>): (r: Result<seq<T>, nat>)
    ensures r.Ok? ==> |r.value| == |Split(line)|
    ensures r.Ok? ==> forall i :: 0 <= i < |r.value| ==> conv(Split(line)[i]) == Some(r.value[i])
    ensures r.Err? ==> r.error < |Split(line)| && conv(Split(line)[r.error]).None?
    ensures r.Err? ==> forall i :: 0 <= i < r.error ==> conv(Split(line)[i]).Some?
  {
    ConvertAll(Split(line), conv)
  }

  /**
   * What the reading loop produces for `lines`: one sequence per line, or
   * the first malformed token in file order.
   */
  function ParseLines<T>(lines: seq<string>, conv: string -> Option<T>): (r: Result<seq<seq<T>>, ParseError>)
    ensures r.Ok? ==> |r.value| == |lines|
    ensures r.Ok? ==> forall j :: 0 <= j < |lines| ==> ParseLine(lines[j], conv) == Ok(r.value[j])
    ensures r.Err? ==> r.error.line < |lines|
    ensures r.Err? ==> forall j :: 0 <= j < r.error.line ==> ParseLine(lines[j], conv).Ok?
    ensures r.Err? ==> ParseLine(lines[r.error.line], conv) == Err(r.error.position)
    ensures r.Err? ==> r.error.token == Split(lines[r.error.line])[r.error.position]
  {
    if lines == [] then Ok([])
    else
      var last := |lines| - 1;
      match ParseLines(lines[..last], conv)
      case Err(e) => Err(e)
      case Ok(seqs) =>
        match ParseLine(lines[last], conv)
        case Err(k) => Err(BadToken(last, k, Split(lines[last])[k]))
        case Ok(s) => Ok(seqs + [s])
  }

  /** Once a prefix of the lines fails, later lines cannot change the outcome. */
  lemma {:induction false} ParseLinesErrorPersists<T>(lines: seq<string>, n: nat, conv: string -> Option<T>)
    requires n <= |lines|
    requires ParseLines(lines[..n], conv).Err?
    ensures ParseLines(lines, conv) == ParseLines(lines[..n], conv)
    decreases |lines|
  {
    if n < |lines| {
      var prefix := lines[..|lines| - 1];
      assert prefix[..n] == lines[..n];
      ParseLinesErrorPersists(prefix, n, conv);
      assert ParseLines(prefix, conv).Err?;
    } else {
      assert lines[..n] == lines;
    }
  }

  /** When every line parses, the reading loop returns exactly those parsed lines. */
  lemma {:induction false} ParseLinesAllOk<T>(lines: seq<string>, conv: string -> Option<T>, seqs: seq<seq<T>>)
    requires |seqs| == |lines|
    requires forall j :: 0 <= j < |lines| ==> ParseLine(lines[j], conv) == Ok(seqs[j])
    ensures ParseLines(lines, conv) == Ok(seqs)
    decreases |lines|
  {
    if lines != [] {
      var last := |lines| - 1;
      var prefix, done := lines[..last], seqs[..last];
      forall j | 0 <= j < last
        ensures ParseLine(prefix[j], conv) == Ok(done[j])
      {
        assert prefix[j] == lines[j] && done[j] == seqs[j];
      }
      ParseLinesAllOk(prefix, conv, done);
      var parsed := ParseLine(lines[last], conv);
      assert parsed == Ok(seqs[last]);
      assert ParseLines(lines, conv) == Ok(done + [parsed.value]);
      assert seqs == done + [seqs[last]];
    }
  }

  /** Parsing succeeds exactly when every token of every line converts. */
  lemma ParseLinesOkIff<T>(lines: seq<string>, conv: string -> Option<T>)
    ensures ParseLines(lines, conv).Ok? <==>
      forall j, i :: 0 <= j < |lines| && 0 <= i < |Split(lines[j])| ==> conv(Split(lines[j])[i]).Some?
  {
    var r := ParseLines(lines, conv);
    if r.Err? {
      var e := r.error;
      assert conv(Split(lines[e.line])[e.position]).None?;
    }
  }

  /**
   * The reading loop: `for seq in seqs: out.append([conv(t) for t in seq.split()])`.
   * A rejected token ends the loop with its position.
   */
  method ReadSequences<T>(lines: seq<string>, conv: string -> Option<T>) returns (r: Result<seq<seq<T>>, ParseError>)
    ensures r == ParseLines(lines, conv)
  {
    var out: seq<seq<T>> := [];
    for j := 0 to |lines|
      invariant ParseLines(lines[..j], conv) == Ok(out)
    {
      assert lines[..j + 1][..j] == lines[..j];
      var converted := ParseLine(lines[j], conv);
      if converted.Err? {
        var k := converted.error;
        r := Err(BadToken(j, k, Split(lines[j])[k]));
        ParseLinesErrorPersists(lines, j + 1, conv);
        return;
      }
      out := out + [converted.value];
    }
    assert lines[..|lines|] == lines;
    r := Ok(out);
  }
}
