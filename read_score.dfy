/** `read_unidock_score`: the docking scores written into an SDF output
    file, one per `> <Uni-Dock RESULT>` tag, read from the line after the
    tag. */
module ReadScore {
  import opened Wrappers
  import opened Text

  /** The tag line that precedes each score. */
  const MARKER: string := "> <Uni-Dock RESULT>"
  /** Only its length is used: this many characters are dropped. */
  const ENERGY_TAG: string := "ENERGY="
  /** The score text ends before the first occurrence of this. */
  const BOUND_TAG: string := "LOWER_BOUND="

  /** Python's `float(text)` on the score text; `None` is its `ValueError`.
      How text becomes a number is not part of this model. */
  type Parser = string -> Option<real>

  /** What the loop does with the line after a tag: cut out the score text
      and parse it. The scan below is stated for any such reader. */
  type LineReader = string -> Option<real>

  /** The ways the scan stops: the tag is the file's last line (an
      `IndexError`), or `float` rejects the text (a `ValueError`). */
  datatype ScoreError =
    | MissingScoreLine(marker: nat)
    | NotANumber(line: nat)

  /** A tag line: the test is on the line's start only. */
  predicate IsMarker(line: string) {
    StartsWith(line, MARKER)
  }

  /** `line.partition("LOWER_BOUND=")[0][len("ENERGY="):]`. */
  function EnergyText(line: string): string {
    Drop(Before(line, BOUND_TAG), |ENERGY_TAG|)
  }

  /** `float(line.partition("LOWER_BOUND=")[0][len("ENERGY="):])`. */
  function ScoreReader(parse: Parser): LineReader {
    line => parse(EnergyText(line))
  }

  /** The positions of the tag lines at or after `from`, in file order. */
  function MarkersFrom(lines: seq<string>, from: nat): seq<nat>
    requires from <= |lines|
    decreases |lines| - from
  {
    if from == |lines| then []
    else if IsMarker(lines[from]) then [from] + MarkersFrom(lines, from + 1)
    else MarkersFrom(lines, from + 1)
  }

  /** `MarkersFrom` lists exactly the tag lines at or after `from`, in
      increasing position. */
  lemma {:induction false} MarkersFromSpec(lines: seq<string>, from: nat)
    requires from <= |lines|
    ensures var ms := MarkersFrom(lines, from);
            && (forall k :: 0 <= k < |ms| ==> from <= ms[k] < |lines| && IsMarker(lines[ms[k]]))
            && (forall k, l :: 0 <= k < l < |ms| ==> ms[k] < ms[l])
            && (forall j :: from <= j < |lines| && IsMarker(lines[j]) ==> j in ms)
    decreases |lines| - from
  {
    if from < |lines| {
      MarkersFromSpec(lines, from + 1);
      var ms := MarkersFrom(lines, from);
      var rest := MarkersFrom(lines, from + 1);
      if IsMarker(lines[from]) {
        assert ms == [from] + rest;
        assert forall k :: 0 < k < |ms| ==> ms[k] == rest[k - 1];
      } else {
        assert ms == rest;
      }
    }
  }

  /** The tag at `m` is followed by a line whose score text parses. */
  predicate ScoreLineOk(lines: seq<string>, m: nat, read: LineReader) {
    m + 1 < |lines| && read(lines[m + 1]).Some?
  }

  /** The score read for the tag at `m`. */
  function ScoreAt(lines: seq<string>, m: nat, read: LineReader): real
    requires ScoreLineOk(lines, m, read)
  {
    read(lines[m + 1]).value
  }

  /** `Ok(xs + ys)` when `r` is `Ok(ys)`; errors pass through. */
  function Prepend(xs: seq<real>, r: Result<seq<real>, ScoreError>): Result<seq<real>, ScoreError> {
    match r
    case Ok(ys) => Ok(xs + ys)
    case Err(e) => Err(e)
  }

  lemma PrependNothing(r: Result<seq<real>, ScoreError>)
    ensures Prepend([], r) == r
  {
    if r.Ok? {
      assert [] + r.value == r.value;
    }
  }

  lemma PrependTwice(xs: seq<real>, r: Result<seq<real>, ScoreError>)
    ensures forall x :: Prepend(xs, Prepend([x], r)) == Prepend(xs + [x], r)
  {
    if r.Ok? {
      forall x ensures xs + ([x] + r.value) == (xs + [x]) + r.value { }
    }
  }

  /** What the loop over `lines[from..]` adds to the score list, or the
      exception that ends it. */
  function ScanFrom(lines: seq<string>, from: nat, read: LineReader): Result<seq<real>, ScoreError>
    requires from <= |lines|
    decreases |lines| - from
  {
    if from == |lines| then Ok([])
    else if !IsMarker(lines[from]) then ScanFrom(lines, from + 1, read)
    else if from + 1 == |lines| then Err(MissingScoreLine(from))
    else
      match read(lines[from + 1])
      case None => Err(NotANumber(from + 1))
      case Some(x) => Prepend([x], ScanFrom(lines, from + 1, read))
  }

  /** The tag at which an error is raised. */
  function ErrorMarker(e: ScoreError): int {
    match e
    case MissingScoreLine(m) => m
    case NotANumber(j) => j - 1
  }

  /** The scan result `r` agrees with the tags `ms`: it is a success exactly
      when every tag is followed by a parseable line, and then holds one
      score per tag, in order, each read from the line after its tag. */
  predicate Agrees(lines: seq<string>, ms: seq<nat>, r: Result<seq<real>, ScoreError>, read: LineReader) {
    && (r.Ok? <==> forall k :: 0 <= k < |ms| ==> ScoreLineOk(lines, ms[k], read))
    && (r.Ok? ==>
          && |r.value| == |ms|
          && forall k :: 0 <= k < |ms| ==>
               ScoreLineOk(lines, ms[k], read) && r.value[k] == ScoreAt(lines, ms[k], read))
  }

  /** A tag line in front of lines the scan agrees with keeps the agreement. */
  lemma MarkerAgrees(lines: seq<string>, from: nat, read: LineReader)
    requires from < |lines| && IsMarker(lines[from])
    requires Agrees(lines, MarkersFrom(lines, from + 1), ScanFrom(lines, from + 1, read), read)
    ensures Agrees(lines, MarkersFrom(lines, from), ScanFrom(lines, from, read), read)
  {
    var ms := MarkersFrom(lines, from);
    var rest := MarkersFrom(lines, from + 1);
    assert ms == [from] + rest;
    if ScoreLineOk(lines, from, read) {
      var r := ScanFrom(lines, from + 1, read);
      assert ScanFrom(lines, from, read) == Prepend([ScoreAt(lines, from, read)], r);
      if r.Ok? {
        var xs := ScanFrom(lines, from, read).value;
        assert xs == [ScoreAt(lines, from, read)] + r.value;
        forall k | 0 <= k < |ms|
          ensures ScoreLineOk(lines, ms[k], read) && xs[k] == ScoreAt(lines, ms[k], read)
        {
          if k > 0 {
            assert ms[k] == rest[k - 1] && xs[k] == r.value[k - 1];
          }
        }
      } else {
        assert forall k :: 0 <= k < |rest| ==> ms[k + 1] == rest[k];
      }
    } else {
      assert ms[0] == from;
    }
  }

  /** The scan succeeds exactly when every tag is followed by a parseable
      line, and then yields one score per tag, in file order, each read from
      the line after its tag, never from the tag line itself. */
  lemma {:induction false} ScanOk(lines: seq<string>, from: nat, read: LineReader)
    requires from <= |lines|
    ensures Agrees(lines, MarkersFrom(lines, from), ScanFrom(lines, from, read), read)
    decreases |lines| - from
  {
    if from < |lines| {
      ScanOk(lines, from + 1, read);
      if IsMarker(lines[from]) {
        MarkerAgrees(lines, from, read);
      } else {
        assert MarkersFrom(lines, from) == MarkersFrom(lines, from + 1);
        assert ScanFrom(lines, from, read) == ScanFrom(lines, from + 1, read);
      }
    }
  }

  /** `e` is raised at the `k`-th tag of `ms`: the line after it is missing
      or does not parse, and every earlier tag was followed by a score. */
  predicate RaisedAt(lines: seq<string>, ms: seq<nat>, k: nat, read: LineReader, e: ScoreError) {
    && k < |ms| && ms[k] == ErrorMarker(e)
    && !ScoreLineOk(lines, ms[k], read)
    && (forall l :: 0 <= l < k ==> ScoreLineOk(lines, ms[l], read))
    && match e
       case MissingScoreLine(m) => m + 1 == |lines|
       case NotANumber(j) => j < |lines| && read(lines[j]).None?
  }

  /** A failed scan names the first tag whose following line is missing (the
      tag is the last line) or does not parse; every earlier tag was fine. */
  lemma {:induction false} ScanErr(lines: seq<string>, from: nat, read: LineReader)
    requires from <= |lines|
    ensures ScanFrom(lines, from, read).Err? ==>
              exists k: nat :: RaisedAt(lines, MarkersFrom(lines, from), k, read, ScanFrom(lines, from, read).error)
    decreases |lines| - from
  {
    if from < |lines| {
      ScanErr(lines, from + 1, read);
      var ms := MarkersFrom(lines, from);
      var rest := MarkersFrom(lines, from + 1);
      if IsMarker(lines[from]) {
        assert ms == [from] + rest;
        if ScoreLineOk(lines, from, read) {
          var r := ScanFrom(lines, from + 1, read);
          assert ScanFrom(lines, from, read) == Prepend([ScoreAt(lines, from, read)], r);
          if r.Err? {
            var k: nat :| RaisedAt(lines, rest, k, read, r.error);
            assert ms[k + 1] == rest[k];
            assert forall l :: 0 < l < k + 1 ==> ms[l] == rest[l - 1];
            assert RaisedAt(lines, ms, k + 1, read, r.error);
          }
        } else {
          var e := ScanFrom(lines, from, read).error;
          assert RaisedAt(lines, ms, 0, read, e);
        }
      } else {
        assert ms == rest;
      }
    }
  }

  /** `read_unidock_score` on the text of the result file: the indexed loop
      over `readlines()` that appends one score per tag line. */
  method ReadUnidockScore(content: string, parse: Parser) returns (r: Result<seq<real>, ScoreError>)
    ensures r == ScanFrom(ReadLines(content), 0, ScoreReader(parse))
  {
    var read := ScoreReader(parse);
    var lines := ReadLines(content);
    var scores: seq<real> := [];
    var idx := 0;
    PrependNothing(ScanFrom(lines, 0, read));
    while idx < |lines|
      invariant 0 <= idx <= |lines|
      invariant ScanFrom(lines, 0, read) == Prepend(scores, ScanFrom(lines, idx, read))
    {
      PrependTwice(scores, ScanFrom(lines, idx + 1, read));
      if IsMarker(lines[idx]) {
        if idx + 1 == |lines| {
          return Err(MissingScoreLine(idx));
        }
        var text := EnergyText(lines[idx + 1]);
        match parse(text)
        case None =>
          return Err(NotANumber(idx + 1));
        case Some(score) =>
          assert ScanFrom(lines, idx, read) == Prepend([score], ScanFrom(lines, idx + 1, read));
          scores := scores + [score];
      }
      idx := idx + 1;
    }
    assert scores + [] == scores;
    return Ok(scores);
  }

  /** Lines without a tag line yield no scores. */
  lemma {:induction false} NoMarkersNoScores(lines: seq<string>, from: nat, read: LineReader)
    requires from <= |lines|
    requires forall j :: from <= j < |lines| ==> !IsMarker(lines[j])
    ensures ScanFrom(lines, from, read) == Ok([])
    decreases |lines| - from
  {
    if from < |lines| {
      NoMarkersNoScores(lines, from + 1, read);
    }
  }

  /** The score text is what stands before `LOWER_BOUND=` with its first
      seven characters dropped, whatever those characters are; a line
      without `LOWER_BOUND=` gives the whole line minus seven characters. */
  lemma EnergyTextDropsByLength(a: string, b: string)
    requires !Contains(a, BOUND_TAG)
    ensures EnergyText(a + BOUND_TAG + b) == Drop(a, 7)
    ensures EnergyText(a) == Drop(a, 7)
  {
    FirstOccurrence(a, BOUND_TAG, b);
  }

  /** The tag test looks at the start of a line only: any text after the
      tag still makes a tag line, while text before the tag that does not
      itself begin with `>` makes it an ordinary line. */
  lemma MarkerIsPrefixTest(pre: string, rest: string)
    ensures IsMarker(MARKER + rest)
    ensures 0 < |pre| && pre[0] != MARKER[0] ==> !IsMarker(pre + MARKER + rest)
  {
    assert (MARKER + rest)[..|MARKER|] == MARKER;
    if 0 < |pre| && |MARKER| <= |pre + MARKER + rest| {
      assert (pre + MARKER + rest)[..|MARKER|][0] == pre[0];
    }
  }
}
