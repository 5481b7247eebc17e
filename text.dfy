/** The few Python `str` operations the scripts rely on, written out on
    `seq<char>`: `startswith`, `find`, `partition`, slicing, `split(sep)`,
    `split()`, `readlines()` and `join`. */
module Text {
  import opened Wrappers

  /** `s.startswith(p)`. */
  predicate StartsWith(s: string, p: string) {
    |p| <= |s| && s[..|p|] == p
  }

  /** `s.endswith(p)`. */
  predicate EndsWith(s: string, p: string) {
    |p| <= |s| && s[|s| - |p|..] == p
  }

  /** `p` occurs in `s` starting at position `i`. */
  predicate OccursAt(s: string, p: string, i: nat) {
    i + |p| <= |s| && s[i..i + |p|] == p
  }

  /** `p in s`. */
  predicate Contains(s: string, p: string) {
    exists i: nat | i <= |s| :: OccursAt(s, p, i)
  }

  /** The last character of `p` occurs nowhere else in `p`, so two
      occurrences of `p` can never overlap. */
  predicate LastUnique(p: string) {
    forall k :: 0 <= k < |p| - 1 ==> p[k] != p[|p| - 1]
  }

  /** An occurrence inside a prefix of `s` is an occurrence in `s`. */
  lemma OccursInPrefix(s: string, p: string, n: nat, j: nat)
    requires n <= |s| && OccursAt(s[..n], p, j)
    ensures OccursAt(s, p, j)
  {
    assert s[..n][j..j + |p|] == s[j..j + |p|];
  }

  /** The first occurrence of `p` in `s` at or after `from`. */
  function IndexFrom(s: string, p: string, from: nat): (r: Option<nat>)
    requires from <= |s|
    ensures r.Some? ==> from <= r.value && OccursAt(s, p, r.value)
    ensures forall j: nat :: from <= j && (r.None? || j < r.value) ==> !OccursAt(s, p, j)
    decreases |s| - from
  {
    if OccursAt(s, p, from) then Some(from)
    else if from == |s| then None
    else IndexFrom(s, p, from + 1)
  }

  /** `s.find(p)`, with `None` standing for Python's `-1`. */
  function IndexOf(s: string, p: string): (r: Option<nat>)
    ensures r.Some? ==> OccursAt(s, p, r.value)
    ensures r.Some? ==> forall j: nat :: j < r.value ==> !OccursAt(s, p, j)
    ensures r.None? <==> !Contains(s, p)
  {
    IndexFrom(s, p, 0)
  }

  /** The text before the first occurrence of `p` has no occurrence of `p`. */
  lemma NoneBeforeFirst(s: string, p: string)
    requires p != "" && IndexOf(s, p).Some?
    ensures !Contains(s[..IndexOf(s, p).value], p)
  {
    var i := IndexOf(s, p).value;
    forall j: nat | OccursAt(s[..i], p, j)
      ensures false
    {
      OccursInPrefix(s, p, i, j);
    }
  }

  /** When the last character of `p` occurs nowhere else in `p`, no
      occurrence of `p` can straddle a boundary before it: the first `p` in
      `a + p + b` is the one after `a`, if `a` holds none. */
  lemma FirstOccurrence(a: string, p: string, b: string)
    requires p != "" && !Contains(a, p)
    requires LastUnique(p)
    ensures IndexOf(a + p + b, p) == Some(|a|)
  {
    var s := a + p + b;
    assert s[|a|..|a| + |p|] == p;
    assert OccursAt(s, p, |a|);
    forall j: nat | j < |a|
      ensures !OccursAt(s, p, j)
    {
      if j + |p| <= |a| {
        assert s[j..j + |p|] == a[j..j + |p|];
        assert !OccursAt(a, p, j);
      } else {
        var k := j + |p| - 1 - |a|;
        assert s[j + |p| - 1] == p[k];
        assert p[k] != p[|p| - 1];
      }
    }
  }

  /** When the last character of `p` occurs nowhere else in `p`, two
      occurrences of `p` never overlap. */
  lemma NoOverlap(s: string, p: string, i: nat)
    requires p != "" && OccursAt(s, p, i)
    requires LastUnique(p)
    ensures forall j: nat :: i < j < i + |p| ==> !OccursAt(s, p, j)
  {
    forall j: nat | i < j < i + |p|
      ensures !OccursAt(s, p, j)
    {
      var q := i + |p| - 1;
      assert s[q] == s[i..i + |p|][|p| - 1] == p[|p| - 1];
      if j + |p| <= |s| {
        assert s[j..j + |p|][q - j] == s[q];
        assert p[q - j] != p[|p| - 1];
      }
    }
  }

  /** `s.partition(p)[0]`: the text before the first `p`, or all of `s`. */
  function Before(s: string, p: string): (r: string)
    requires p != ""
    ensures |r| <= |s| && r == s[..|r|]
    ensures Contains(s, p) ==> OccursAt(s, p, |r|) && !Contains(r, p)
    ensures !Contains(s, p) ==> r == s
  {
    match IndexOf(s, p)
    case None => s
    case Some(i) => NoneBeforeFirst(s, p); s[..i]
  }

  /** The Python slice `s[n:]`, which is empty when `n` is past the end. */
  function Drop(s: string, n: nat): (r: string)
    ensures n <= |s| ==> s == s[..n] + r
    ensures n >= |s| ==> r == ""
  {
    if n <= |s| then s[n..] else ""
  }

  /** The pieces of `s[from..]` when split at every `sep`. */
  function SplitFrom(s: string, sep: string, from: nat): (parts: seq<string>)
    requires sep != "" && from <= |s|
    ensures |parts| >= 1
    decreases |s| - from
  {
    match IndexFrom(s, sep, from)
    case None => [s[from..]]
    case Some(i) => [s[from..i]] + SplitFrom(s, sep, i + |sep|)
  }

  /** `s.split(sep)` for a non-empty separator. */
  function Split(s: string, sep: string): (parts: seq<string>)
    requires sep != ""
    ensures |parts| >= 1
  {
    SplitFrom(s, sep, 0)
  }

  /** `sep.join(parts)`. */
  function Join(parts: seq<string>, sep: string): string {
    if |parts| == 0 then ""
    else if |parts| == 1 then parts[0]
    else parts[0] + sep + Join(parts[1..], sep)
  }

  /** `"".join(parts)`. */
  function Concat(parts: seq<string>): string {
    if parts == [] then "" else parts[0] + Concat(parts[1..])
  }

  /** An occurrence inside a slice of `s` is an occurrence in `s`. */
  lemma OccursInSlice(s: string, p: string, lo: nat, hi: nat, j: nat)
    requires lo <= hi <= |s| && OccursAt(s[lo..hi], p, j)
    ensures OccursAt(s, p, lo + j)
  {
    var w := s[lo..hi][j..j + |p|];
    forall k | 0 <= k < |p|
      ensures w[k] == s[lo + j + k]
    {
      assert w[k] == s[lo..hi][j + k];
    }
    assert w == s[lo + j..lo + j + |p|];
  }

  /** Joining the pieces of `s[from..]` with the separator gives it back. */
  lemma {:induction false} SplitFromJoin(s: string, sep: string, from: nat)
    requires sep != "" && from <= |s|
    ensures Join(SplitFrom(s, sep, from), sep) == s[from..]
    decreases |s| - from
  {
    if IndexFrom(s, sep, from).Some? {
      var next := SplitFromTail(s, sep, from);
      SplitFromJoin(s, sep, next);
      JoinOfCut(s, sep, from, next - |sep|, SplitFrom(s, sep, from));
    } else {
      assert SplitFrom(s, sep, from) == [s[from..]];
    }
  }

  /** A first piece that runs up to an occurrence of the separator, followed
      by pieces that join to the text after it, joins to the whole text. */
  lemma JoinOfCut(s: string, sep: string, from: nat, i: nat, parts: seq<string>)
    requires from <= i && OccursAt(s, sep, i) && |parts| > 1
    requires parts[0] == s[from..i] && Join(parts[1..], sep) == s[i + |sep|..]
    ensures Join(parts, sep) == s[from..]
  {
    var j := i + |sep|;
    JoinCons(parts, sep);
    SliceConcat(s, from, i, j);
    SliceConcat(s, from, j, |s|);
    assert s[j..] == s[j..|s|] && s[from..] == s[from..|s|];
  }

  /** Two or more pieces join to the first, the separator, and the rest joined. */
  lemma JoinCons(parts: seq<string>, sep: string)
    requires |parts| > 1
    ensures Join(parts, sep) == parts[0] + sep + Join(parts[1..], sep)
  {
  }

  /** Adjacent slices concatenate to the slice they span. */
  lemma SliceConcat(s: string, a: nat, b: nat, c: nat)
    requires a <= b <= c <= |s|
    ensures s[a..b] + s[b..c] == s[a..c]
  {
  }

  /** Joining the pieces of a split with the separator gives back the text. */
  lemma SplitJoin(s: string, sep: string)
    requires sep != ""
    ensures Join(Split(s, sep), sep) == s
  {
    SplitFromJoin(s, sep, 0);
    assert s[0..] == s;
  }

  /** The first piece of `s[from..]` holds no separator. */
  lemma FirstPieceFree(s: string, sep: string, from: nat)
    requires sep != "" && from <= |s|
    ensures !Contains(SplitFrom(s, sep, from)[0], sep)
  {
    var hi := match IndexFrom(s, sep, from) case None => |s| case Some(i) => i;
    assert SplitFrom(s, sep, from)[0] == s[from..hi];
    forall j: nat | OccursAt(s[from..hi], sep, j)
      ensures false
    {
      OccursInSlice(s, sep, from, hi, j);
    }
  }

  /** After the first piece, the split goes on past the first separator. */
  lemma SplitFromTail(s: string, sep: string, from: nat) returns (next: nat)
    requires sep != "" && from <= |s| && IndexFrom(s, sep, from).Some?
    ensures next == IndexFrom(s, sep, from).value + |sep| && from < next <= |s|
    ensures |SplitFrom(s, sep, from)| > 1
    ensures SplitFrom(s, sep, from)[0] == s[from..next - |sep|]
    ensures SplitFrom(s, sep, from)[1..] == SplitFrom(s, sep, next)
  {
    next := IndexFrom(s, sep, from).value + |sep|;
  }

  /** No piece of `s[from..]` holds the separator. */
  lemma {:induction false} SplitFromPiecesFree(s: string, sep: string, from: nat)
    requires sep != "" && from <= |s|
    ensures forall k :: 0 <= k < |SplitFrom(s, sep, from)| ==> !Contains(SplitFrom(s, sep, from)[k], sep)
    decreases |s| - from
  {
    var parts := SplitFrom(s, sep, from);
    FirstPieceFree(s, sep, from);
    if IndexFrom(s, sep, from).Some? {
      var next := SplitFromTail(s, sep, from);
      SplitFromPiecesFree(s, sep, next);
      forall k | 1 <= k < |parts|
        ensures !Contains(parts[k], sep)
      {
        assert parts[k] == parts[1..][k - 1];
      }
    }
  }

  /** No piece of a split holds the separator. */
  lemma SplitPiecesFree(s: string, sep: string)
    requires sep != ""
    ensures forall k :: 0 <= k < |Split(s, sep)| ==> !Contains(Split(s, sep)[k], sep)
  {
    SplitFromPiecesFree(s, sep, 0);
  }

  /** The last of `parts` is empty. */
  predicate EndsEmpty(parts: seq<string>) {
    parts != [] && parts[|parts| - 1] == ""
  }

  /** Splitting from the very end gives one empty piece. */
  lemma SplitFromAtEnd(s: string, sep: string)
    requires sep != ""
    ensures SplitFrom(s, sep, |s|) == [""]
  {
    assert !OccursAt(s, sep, |s|);
    assert IndexFrom(s, sep, |s|) == None;
    assert s[|s|..] == "";
  }

  /** In text that ends with a separator that cannot overlap itself, the
      first separator at or after `from` is either the final one or ends no
      later than the final one begins. */
  lemma CutBeforeFinal(s: string, sep: string, from: nat) returns (i: nat)
    requires sep != "" && EndsWith(s, sep) && LastUnique(sep)
    requires from <= |s| - |sep|
    ensures IndexFrom(s, sep, from) == Some(i)
    ensures i + |sep| <= |s| - |sep| || i + |sep| == |s|
  {
    var j := |s| - |sep|;
    assert OccursAt(s, sep, j);
    i := IndexFrom(s, sep, from).value;
    if i < j && j < i + |sep| {
      NoOverlap(s, sep, i);
    }
  }

  /** In text that ends with a separator that cannot overlap itself, the
      split of `s[from..]` finds a separator and resumes at `next`, either
      before the final separator or at the very end, ending with the same
      piece. */
  lemma NextCut(s: string, sep: string, from: nat) returns (next: nat)
    requires sep != "" && EndsWith(s, sep) && LastUnique(sep)
    requires from <= |s| - |sep|
    ensures from < next && (next <= |s| - |sep| || next == |s|)
    ensures EndsEmpty(SplitFrom(s, sep, from)) == EndsEmpty(SplitFrom(s, sep, next))
  {
    var i := CutBeforeFinal(s, sep, from);
    next := SplitFromTail(s, sep, from);
    var parts := SplitFrom(s, sep, from);
    assert parts[|parts| - 1] == parts[1..][|parts| - 2];
  }

  /** When `s` ends with a separator that cannot overlap itself, the last
      piece of `s[from..]` is empty, for any `from` up to that separator. */
  lemma {:induction false} SplitFromEndsEmpty(s: string, sep: string, from: nat)
    requires sep != "" && EndsWith(s, sep) && LastUnique(sep)
    requires from <= |s| - |sep| || from == |s|
    ensures EndsEmpty(SplitFrom(s, sep, from))
    decreases |s| - from
  {
    if from == |s| {
      SplitFromAtEnd(s, sep);
    } else {
      var next := NextCut(s, sep, from);
      SplitFromEndsEmpty(s, sep, next);
    }
  }

  /** Text that ends with a separator that cannot overlap itself splits
      into pieces the last of which is empty. */
  lemma SplitEndsEmpty(s: string, sep: string)
    requires sep != "" && EndsWith(s, sep)
    requires LastUnique(sep)
    ensures Split(s, sep)[|Split(s, sep)| - 1] == ""
  {
    SplitFromEndsEmpty(s, sep, 0);
    assert EndsEmpty(Split(s, sep));
  }

  /** `readlines()` on the text of a file: every line keeps its `\n`, and
      the text after the last `\n`, if any, is the last line. */
  function ReadLines(s: string): (lines: seq<string>)
    ensures forall k :: 0 <= k < |lines| ==> lines[k] != ""
    ensures forall k :: 0 <= k < |lines| - 1 ==> EndsWith(lines[k], "\n")
    decreases |s|
  {
    if s == "" then []
    else
      match IndexOf(s, "\n")
      case None => [s]
      case Some(i) => [s[..i + 1]] + ReadLines(s[i + 1..])
  }

  /** A text holding a `\n` reads as its first line, through that `\n`,
      followed by the lines of the rest. */
  lemma ReadLinesCons(s: string) returns (n: nat)
    requires IndexOf(s, "\n").Some?
    ensures 0 < n <= |s| && ReadLines(s) == [s[..n]] + ReadLines(s[n..])
  {
    n := IndexOf(s, "\n").value + 1;
  }

  /** Lines that start with the text through its first cut and go on with
      lines that rejoin to the rest rejoin to the whole text. */
  lemma ConcatOfCut(s: string, n: nat, lines: seq<string>)
    requires n <= |s| && lines != [] && lines[0] == s[..n] && Concat(lines[1..]) == s[n..]
    ensures Concat(lines) == s
  {
    assert s == s[..n] + s[n..];
  }

  /** The lines put back together are the text of the file. */
  lemma {:induction false} ReadLinesConcat(s: string)
    ensures Concat(ReadLines(s)) == s
    decreases |s|
  {
    if s != "" && IndexOf(s, "\n").Some? {
      var n := ReadLinesCons(s);
      ReadLinesConcat(s[n..]);
      ConcatOfCut(s, n, ReadLines(s));
    } else if s != "" {
      assert ReadLines(s) == [s];
      assert Concat([s]) == s + Concat([]);
    }
  }

  /** The characters Python's `str.split()` treats as whitespace. */
  predicate IsSpace(c: char) {
    || c == ' ' || c == '\t' || c == '\n' || c == '\r' || c == '\U{b}' || c == '\U{c}'
    || ('\U{1c}' <= c <= '\U{1f}') || c == '\U{85}' || c == '\U{a0}' || c == '\U{1680}'
    || ('\U{2000}' <= c <= '\U{200a}') || c == '\U{2028}' || c == '\U{2029}'
    || c == '\U{202f}' || c == '\U{205f}' || c == '\U{3000}'
  }

  /** A non-empty run of non-whitespace characters. */
  predicate IsWord(w: string) {
    w != "" && forall k :: 0 <= k < |w| ==> !IsSpace(w[k])
  }

  /** The length of the word `s` starts with. */
  function RunLength(s: string): (n: nat)
    requires s != "" && !IsSpace(s[0])
    ensures 1 <= n <= |s| && IsWord(s[..n]) && (n < |s| ==> IsSpace(s[n]))
  {
    if |s| == 1 || IsSpace(s[1]) then 1 else 1 + RunLength(s[1..])
  }

  /** `s.split()`: the maximal whitespace-free runs of `s`, in order. */
  function Words(s: string): (ws: seq<string>)
    ensures forall k :: 0 <= k < |ws| ==> IsWord(ws[k])
    decreases |s|
  {
    if s == "" then []
    else if IsSpace(s[0]) then Words(s[1..])
    else
      var n := RunLength(s);
      [s[..n]] + Words(s[n..])
  }

  /** Words each followed by a single space, the shape of a command line
      written as one f-string. */
  function SpaceJoined(ws: seq<string>): string {
    if ws == [] then "" else ws[0] + " " + SpaceJoined(ws[1..])
  }

  /** The word a text starts with ends at the first space after it. */
  lemma {:induction false} RunLengthOfWord(w: string, t: string)
    requires IsWord(w) && t != "" && IsSpace(t[0])
    ensures RunLength(w + t) == |w|
  {
    if |w| > 1 {
      assert (w + t)[1..] == w[1..] + t;
      RunLengthOfWord(w[1..], t);
    }
  }

  /** Splitting a space-joined list of words gives back the words. */
  lemma {:induction false} WordsOfSpaceJoined(ws: seq<string>)
    requires forall k :: 0 <= k < |ws| ==> IsWord(ws[k])
    ensures Words(SpaceJoined(ws)) == ws
  {
    if ws != [] {
      var w, rest := ws[0], SpaceJoined(ws[1..]);
      var s := w + " " + rest;
      assert s == w + (" " + rest);
      RunLengthOfWord(w, " " + rest);
      var n := RunLength(s);
      assert s[..n] == w;
      assert s[n..] == " " + rest;
      assert Words(s[n..]) == Words(rest);
      WordsOfSpaceJoined(ws[1..]);
    }
  }
}
