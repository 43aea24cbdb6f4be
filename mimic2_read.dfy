/**
 * `read_mimic2`: read the time file and the event file line by line, check
 * that every time sequence has a minimum, relabel the marks to dense ids and
 * pair each time with the mark at the same position.
 *
 * `parseTime` stands for `float` on a token and `rescale` for the map
 * `time -> (h_dt + time - tmin) * scale`; both are floating point and kept
 * abstract.
 */
module Mimic2Read {
  import opened Wrappers
  import opened IntLiteral
  import opened LineParsing
  import opened MarkIds
  import Tokens

  /** One observation: a (rescaled) time and the id of its event type. */
  datatype Event<U> = Event(time: U, mark: nat)

  /** The ValueError that ends `read_mimic2`, by its cause. */
  datatype ReadError =
    | BadTime(cause: ParseError)       // `float(t)` rejected a token of the time file
    | NoSequences                      // `min([])`: the time file has no lines
    | EmptyTimeSequence(line: nat)     // `min(seq)` of the first blank line of the time file
    | BadMark(cause: ParseError)       // `int(k)` rejected a token of the event file

  /** Python's `zip` on two lists: pairs in order, as many as the shorter list has. */
  function Zip<A, B>(xs: seq<A>, ys: seq<B>): (r: seq<(A, B)>)
    ensures |r| == Min(|xs|, |ys|)
    ensures forall i :: 0 <= i < |r| ==> r[i] == (xs[i], ys[i])
  {
    if xs == [] || ys == [] then [] else [(xs[0], ys[0])] + Zip(xs[1..], ys[1..])
  }

  /** The position of the first empty sequence, or `|seqs|` when there is none. */
  function FirstEmpty<T>(seqs: seq<seq<T>>): (k: nat)
    ensures k <= |seqs|
    ensures k < |seqs| ==> seqs[k] == []
    ensures forall j :: 0 <= j < k ==> seqs[j] != []
  {
    if seqs == [] then 0
    else if seqs[0] == [] then 0
    else 1 + FirstEmpty(seqs[1..])
  }

  /** The marks that `zip` reaches and that are therefore looked up in `ids`. */
  predicate LookupsSucceed<T>(timeSeqs: seq<seq<T>>, markSeqs: seq<seq<int>>, ids: map<int, nat>)
  {
    forall j, i :: 0 <= j < Min(|timeSeqs|, |markSeqs|) && 0 <= i < Min(|timeSeqs[j]|, |markSeqs[j]|) ==>
      markSeqs[j][i] in ids
  }

  /** `[(rescale(time), ids[mark]) for time, mark in zip(times, marks)]`. */
  function PairSequence<T, U>(times: seq<T>, marks: seq<int>, ids: map<int, nat>, rescale: T -> U): (r: seq<Event<U>>)
    requires forall i :: 0 <= i < Min(|times|, |marks|) ==> marks[i] in ids
    ensures |r| == Min(|times|, |marks|)
    ensures forall i :: 0 <= i < |r| ==> r[i] == Event(rescale(times[i]), ids[marks[i]])
  {
    var pairs := Zip(times, marks);
    seq(|pairs|, i requires 0 <= i < |pairs| => Event(rescale(pairs[i].0), ids[pairs[i].1]))
  }

  /** The outer comprehension of line 58: one event sequence per pair of time and mark sequences. */
  function PairEvents<T, U>(timeSeqs: seq<seq<T>>, markSeqs: seq<seq<int>>, ids: map<int, nat>, rescale: T -> U): (r: seq<seq<Event<U>>>)
    requires LookupsSucceed(timeSeqs, markSeqs, ids)
    ensures |r| == Min(|timeSeqs|, |markSeqs|)
    ensures forall j :: 0 <= j < |r| ==>
      && |r[j]| == Min(|timeSeqs[j]|, |markSeqs[j]|)
      && forall i :: 0 <= i < |r[j]| ==> r[j][i] == Event(rescale(timeSeqs[j][i]), ids[markSeqs[j][i]])
  {
    var pairs := Zip(timeSeqs, markSeqs);
    seq(|pairs|, j requires 0 <= j < |pairs| =>
      assert forall i :: 0 <= i < Min(|pairs[j].0|, |pairs[j].1|) ==> pairs[j].1[i] in ids;
      PairSequence(pairs[j].0, pairs[j].1, ids, rescale))
  }

  /** The marks of the event file always have ids, so the pairing never fails on a lookup. */
  lemma MarkMapCoversLookups<T>(timeSeqs: seq<seq<T>>, markSeqs: seq<seq<int>>)
    ensures LookupsSucceed(timeSeqs, markSeqs, MarkMap(markSeqs))
  {
    MarkMapDomain(markSeqs);
    forall j, i | 0 <= j < Min(|timeSeqs|, |markSeqs|) && 0 <= i < Min(|timeSeqs[j]|, |markSeqs[j]|)
      ensures markSeqs[j][i] in MarkMap(markSeqs)
    {
      assert markSeqs[j][i] in MarksOf(markSeqs);
    }
  }

  /**
   * What `read_mimic2` returns before its shuffle, or the error that ends it.
   * The checks come in the order of `read_mimic2`: the time file is read, the
   * minimum of every time sequence is taken, then the event file is read.
   */
  function Mimic2<T, U>(timeLines: seq<string>, markLines: seq<string>,
                        parseTime: string -> Option<T>, rescale: T -> U): (r: Result<seq<seq<Event<U>>>, ReadError>)
    ensures r.Ok? ==> |r.value| == Min(|timeLines|, |markLines|)
    ensures r.Err? && r.error.BadTime? ==> ParseLines(timeLines, parseTime) == Err(r.error.cause)
    ensures r.Err? && r.error.BadMark? ==> ParseLines(markLines, ParseInt) == Err(r.error.cause)
  {
    match ParseLines(timeLines, parseTime)
    case Err(e) => Err(BadTime(e))
    case Ok(timeSeqs) =>
      var k := FirstEmpty(timeSeqs);
      if k < |timeSeqs| then Err(EmptyTimeSequence(k))
      else if timeSeqs == [] then Err(NoSequences)
      else
        match ParseLines(markLines, ParseInt)
        case Err(e) => Err(BadMark(e))
        case Ok(markSeqs) =>
          MarkMapCoversLookups(timeSeqs, markSeqs);
          Ok(PairEvents(timeSeqs, markSeqs, MarkMap(markSeqs), rescale))
  }

  /** `read_mimic2` without the shuffle: the two reading loops, then the relabelling and the pairing. */
  method ReadMimic2<T, U>(timeLines: seq<string>, markLines: seq<string>,
                          parseTime: string -> Option<T>, rescale: T -> U)
    returns (r: Result<seq<seq<Event<U>>>, ReadError>)
    ensures r == Mimic2(timeLines, markLines, parseTime, rescale)
  {
    var times := ReadSequences(timeLines, parseTime);
    if times.Err? {
      return Err(BadTime(times.error));
    }
    var timeSeqs := times.value;
    var k := FirstEmpty(timeSeqs);
    if k < |timeSeqs| {
      return Err(EmptyTimeSequence(k));
    }
    if timeSeqs == [] {
      return Err(NoSequences);
    }
    var marks := ReadSequences(markLines, ParseInt);
    if marks.Err? {
      return Err(BadMark(marks.error));
    }
    var markSeqs := marks.value;
    var ids := MarkMap(markSeqs);
    MarkMapCoversLookups(timeSeqs, markSeqs);
    r := Ok(PairEvents(timeSeqs, markSeqs, ids, rescale));
  }

  // ---------------------------------------------------------------------
  // What the result means

  /**
   * There are as many event sequences as the shorter file has lines, and each
   * is as long as the shorter of its time and mark sequences.
   */
  lemma Mimic2Shape<T, U>(timeLines: seq<string>, markLines: seq<string>,
                          parseTime: string -> Option<T>, rescale: T -> U)
    requires Mimic2(timeLines, markLines, parseTime, rescale).Ok?
    ensures var events := Mimic2(timeLines, markLines, parseTime, rescale).value;
      && |events| == Min(|timeLines|, |markLines|)
      && forall j :: 0 <= j < |events| ==>
           |events[j]| == Min(|ParseLines(timeLines, parseTime).value[j]|, |ParseLines(markLines, ParseInt).value[j]|)
  {
    var timeSeqs := ParseLines(timeLines, parseTime).value;
    var markSeqs := ParseLines(markLines, ParseInt).value;
    MarkMapCoversLookups(timeSeqs, markSeqs);
  }

  /** Event i of sequence j pairs the i-th time of line j with the id of the i-th mark of line j. */
  lemma Mimic2EventAt<T, U>(timeLines: seq<string>, markLines: seq<string>,
                            parseTime: string -> Option<T>, rescale: T -> U, j: nat, i: nat)
    ensures var r := Mimic2(timeLines, markLines, parseTime, rescale);
      r.Ok? && j < |r.value| && i < |r.value[j]| ==>
        && var timeSeqs := ParseLines(timeLines, parseTime).value;
        && var markSeqs := ParseLines(markLines, ParseInt).value;
        && j < |timeSeqs| && j < |markSeqs| && i < |timeSeqs[j]| && i < |markSeqs[j]|
        && markSeqs[j][i] in MarkMap(markSeqs)
        && r.value[j][i] == Event(rescale(timeSeqs[j][i]), MarkMap(markSeqs)[markSeqs[j][i]])
  {
    if Mimic2(timeLines, markLines, parseTime, rescale).Ok? {
      var timeSeqs := ParseLines(timeLines, parseTime).value;
      var markSeqs := ParseLines(markLines, ParseInt).value;
      MarkMapCoversLookups(timeSeqs, markSeqs);
    }
  }

  /** Every event carries an id below the number of distinct marks of the event file. */
  lemma Mimic2MarkIdInRange<T, U>(timeLines: seq<string>, markLines: seq<string>,
                                  parseTime: string -> Option<T>, rescale: T -> U, j: nat, i: nat)
    ensures var r := Mimic2(timeLines, markLines, parseTime, rescale);
      r.Ok? && j < |r.value| && i < |r.value[j]| ==>
        r.value[j][i].mark < |MarksOf(ParseLines(markLines, ParseInt).value)|
  {
    var r := Mimic2(timeLines, markLines, parseTime, rescale);
    if r.Ok? && j < |r.value| && i < |r.value[j]| {
      var markSeqs := ParseLines(markLines, ParseInt).value;
      Mimic2EventAt(timeLines, markLines, parseTime, rescale, j, i);
      MarkMapOnto(markSeqs);
      assert r.value[j][i].mark in MarkMap(markSeqs).Values;
    }
  }

  /** `read_mimic2` succeeds exactly when no check fails; and when it fails, it says which. */
  lemma Mimic2Errors<T, U>(timeLines: seq<string>, markLines: seq<string>,
                           parseTime: string -> Option<T>, rescale: T -> U)
    ensures var r := Mimic2(timeLines, markLines, parseTime, rescale);
      && (ParseLines(timeLines, parseTime).Err? ==> r == Err(BadTime(ParseLines(timeLines, parseTime).error)))
      && (r == Err(NoSequences) <==> ParseLines(timeLines, parseTime).Ok? && timeLines == [])
      && (r.Err? && r.error.EmptyTimeSequence? ==>
            var j := r.error.line;
            && j < |timeLines| && ParseLines(timeLines, parseTime).value[j] == [] && Tokens.Split(timeLines[j]) == []
            && forall j' :: 0 <= j' < j ==> Tokens.Split(timeLines[j']) != [])
      && (r.Ok? <==>
            && ParseLines(timeLines, parseTime).Ok?
            && timeLines != []
            && (forall j :: 0 <= j < |timeLines| ==> Tokens.Split(timeLines[j]) != [])
            && ParseLines(markLines, ParseInt).Ok?)
  {
    var r := Mimic2(timeLines, markLines, parseTime, rescale);
    var times := ParseLines(timeLines, parseTime);
    if times.Ok? {
      var timeSeqs := times.value;
      forall j | 0 <= j < |timeLines|
        ensures timeSeqs[j] == [] <==> Tokens.Split(timeLines[j]) == []
      {
        assert ParseLine(timeLines[j], parseTime) == Ok(timeSeqs[j]);
      }
    }
  }

  // ---------------------------------------------------------------------
  // The event file format

  /** `[str(n) for n in s]`. */
  function ShowInts(s: seq<int>): (r: seq<string>)
    ensures |r| == |s|
    ensures forall i :: 0 <= i < |s| ==> r[i] == ShowInt(s[i])
  {
    if s == [] then [] else [ShowInt(s[0])] + ShowInts(s[1..])
  }

  /** An event file with one line of space-separated marks per sequence. */
  function EventFile(seqs: seq<seq<int>>): (lines: seq<string>)
    ensures |lines| == |seqs|
    ensures forall j :: 0 <= j < |seqs| ==> lines[j] == Tokens.Line(ShowInts(seqs[j]))
  {
    if seqs == [] then [] else [Tokens.Line(ShowInts(seqs[0]))] + EventFile(seqs[1..])
  }

  /** `str(n)` is a single token for `split()`: non-empty and free of whitespace. */
  lemma ShowIntIsWord(n: int)
    ensures Tokens.IsWord(ShowInt(n))
  {
    var d := ShowNat(if n < 0 then -n else n);
    assert forall i :: 0 <= i < |d| ==> IsDigit(d[i]) && !Tokens.IsSpace(d[i]);
    if n < 0 {
      var s := ShowInt(n);
      assert s == "-" + d;
      assert forall i :: 1 <= i < |s| ==> s[i] == d[i - 1];
    }
  }

  /** `int` reads back every rendered integer of a line. */
  lemma {:induction false} ConvertShowInts(s: seq<int>)
    ensures ConvertAll(ShowInts(s), ParseInt) == Ok(s)
  {
    if s != [] {
      ParseShowInt(s[0]);
      ConvertShowInts(s[1..]);
      assert ShowInts(s)[1..] == ShowInts(s[1..]);
      assert s == [s[0]] + s[1..];
    }
  }

  /** A rendered line of marks parses back into exactly those marks. */
  lemma ParseEventLine(s: seq<int>)
    ensures ParseLine(Tokens.Line(ShowInts(s)), ParseInt) == Ok(s)
  {
    var ws := ShowInts(s);
    forall k | 0 <= k < |ws|
      ensures Tokens.IsWord(ws[k])
    {
      ShowIntIsWord(s[k]);
    }
    Tokens.SplitLine(ws);
    ConvertShowInts(s);
  }

  /**
   * Round trip of the event file: lines of space-separated `str(n)` are read
   * back by the reading loop as the same integer sequences.
   */
  lemma EventFileRoundTrip(seqs: seq<seq<int>>)
    ensures ParseLines(EventFile(seqs), ParseInt) == Ok(seqs)
  {
    var lines := EventFile(seqs);
    forall j | 0 <= j < |lines|
      ensures ParseLine(lines[j], ParseInt) == Ok(seqs[j])
    {
      ParseEventLine(seqs[j]);
    }
    ParseLinesAllOk(lines, ParseInt, seqs);
  }
}
