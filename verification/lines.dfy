/** Python's `str.splitlines()` (without `keepends`), which `Factifier.factify`
    applies to the language model's reply before parsing it. */
module Lines {
  import opened Text

  /** One line of a text together with the boundary that ended it; the
      ending is empty only for a last line that had no boundary. */
  datatype Segment = Segment(line: string, ending: string)

  /** A boundary `splitlines` recognises: "\r\n" or one boundary character. */
  predicate IsEnding(e: string) {
    e == "\r\n" || (|e| == 1 && IsLineBreak(e[0]))
  }

  /** The first line boundary at or after `from`, or `|s|` when there is none. */
  function BreakFrom(s: string, from: nat): (k: nat)
    requires from <= |s|
    ensures from <= k <= |s|
    ensures k < |s| ==> IsLineBreak(s[k])
    ensures forall m :: from <= m < k ==> !IsLineBreak(s[m])
    decreases |s| - from
  {
    if from == |s| || IsLineBreak(s[from]) then from else BreakFrom(s, from + 1)
  }

  /** How many characters the boundary starting at `k` takes: a "\r"
      immediately followed by "\n" is one boundary of two characters. */
  function EndingLength(s: string, k: nat): (n: nat)
    requires k < |s| && IsLineBreak(s[k])
    ensures 1 <= n && k + n <= |s|
    ensures n == 2 <==> s[k] == '\r' && k + 1 < |s| && s[k + 1] == '\n'
  {
    if s[k] == '\r' && k + 1 < |s| && s[k + 1] == '\n' then 2 else 1
  }

  lemma Slice3(s: string, k: nat, e: nat)
    requires k <= e <= |s|
    ensures s == s[..k] + s[k..e] + s[e..]
  {
  }

  /** Concatenates the segments back, endings included. */
  function Rejoin(segs: seq<Segment>): string {
    if segs == [] then [] else segs[0].line + segs[0].ending + Rejoin(segs[1..])
  }

  /** A segment as `splitlines` cuts it: a line free of boundaries, ended by
      a boundary or by the end of the text, and not both empty. */
  predicate GoodSegment(seg: Segment) {
    NoBreak(seg.line) && (seg.ending == [] || IsEnding(seg.ending)) && |seg.line| + |seg.ending| > 0
  }

  /** The lines of `s` with their boundaries. Nothing is lost: rejoining
      gives back `s`, and only the empty text has no lines. */
  function Segments(s: string): (segs: seq<Segment>)
    ensures Rejoin(segs) == s
    ensures |segs| == 0 <==> |s| == 0
    decreases |s|
  {
    if s == [] then []
    else
      var k := BreakFrom(s, 0);
      if k == |s| then
        assert s[..k] == s;
        [Segment(s, [])]
      else
        var e := k + EndingLength(s, k);
        var head := Segment(s[..k], s[k..e]);
        var segs := [head] + Segments(s[e..]);
        assert segs[1..] == Segments(s[e..]);
        Slice3(s, k, e);
        segs
  }

  /** Every segment is well formed and only the last may lack a boundary. */
  lemma {:induction false} SegmentsWellFormed(s: string)
    ensures forall i :: 0 <= i < |Segments(s)| ==> GoodSegment(Segments(s)[i])
    ensures forall i :: 0 <= i < |Segments(s)| - 1 ==> Segments(s)[i].ending != []
    decreases |s|
  {
    if s != [] {
      var k := BreakFrom(s, 0);
      if k == |s| {
        assert s[..k] == s;
      } else {
        var e := k + EndingLength(s, k);
        var head := Segment(s[..k], s[k..e]);
        var rest := Segments(s[e..]);
        var segs := Segments(s);
        assert segs == [head] + rest;
        HeadSegmentGood(s, k, e);
        SegmentsWellFormed(s[e..]);
        assert forall i :: 1 <= i < |segs| ==> segs[i] == rest[i - 1];
      }
    }
  }

  /** "\r\n" is one boundary, never two: a segment ended by "\r" is not
      followed by a segment that is a bare "\n". */
  lemma {:induction false} SegmentsKeepCRLF(s: string)
    ensures forall i :: 0 <= i < |Segments(s)| - 1 && Segments(s)[i].ending == "\r" ==>
      Segments(s)[i + 1] != Segment("", "\n")
    decreases |s|
  {
    if s != [] {
      var k := BreakFrom(s, 0);
      if k < |s| {
        var e := k + EndingLength(s, k);
        var rest := Segments(s[e..]);
        var segs := Segments(s);
        assert segs == [Segment(s[..k], s[k..e])] + rest;
        SegmentsKeepCRLF(s[e..]);
        assert forall i :: 1 <= i < |segs| ==> segs[i] == rest[i - 1];
        if |rest| > 0 && s[k..e] == "\r" {
          assert Rejoin(rest) == rest[0].line + rest[0].ending + Rejoin(rest[1..]);
          assert e == k + 1 && s[k] == '\r';
          assert rest[0] != Segment("", "\n");
        }
      }
    }
  }

  /** The line before the first boundary, with that boundary, is a well-formed
      segment ending in a boundary. */
  lemma HeadSegmentGood(s: string, k: nat, e: nat)
    requires k < |s| && k == BreakFrom(s, 0) && e == k + EndingLength(s, k)
    ensures GoodSegment(Segment(s[..k], s[k..e])) && s[k..e] != []
  {
    assert forall m :: 0 <= m < k ==> s[..k][m] == s[m];
    assert NoBreak(s[..k]);
    if e == k + 2 {
      assert s[k..e] == [s[k], s[k + 1]];
    } else {
      assert s[k..e] == [s[k]];
    }
  }

  /** `text.splitlines()`: the lines of `text` without their boundaries. */
  function SplitLines(text: string): (lines: seq<string>)
    ensures |lines| == |Segments(text)|
    ensures forall i :: 0 <= i < |lines| ==> lines[i] == Segments(text)[i].line && NoBreak(lines[i])
    ensures |lines| == 0 <==> |text| == 0
  {
    var segs := Segments(text);
    SegmentsWellFormed(text);
    seq(|segs|, i requires 0 <= i < |segs| => segs[i].line)
  }

  /** Writes each line followed by "\n": the shape of a reply whose every
      line, the last included, is terminated. */
  function Terminate(lines: seq<string>): string {
    if lines == [] then [] else lines[0] + "\n" + Terminate(lines[1..])
  }

  /** A line free of boundaries followed by "\n" is split off as one line,
      whatever follows it. */
  lemma SplitLinesCons(line: string, rest: string)
    requires NoBreak(line)
    ensures SplitLines(line + "\n" + rest) == [line] + SplitLines(rest)
  {
    var s := line + "\n" + rest;
    var k := |line|;
    assert s[k] == '\n';
    BreakFromSkips(s, 0, k);
    assert EndingLength(s, k) == 1;
    assert s[..k] == line && s[k..k + 1] == "\n" && s[k + 1..] == rest;
    assert Segments(s) == [Segment(line, "\n")] + Segments(rest);
    SplitLinesStep(s, rest, Segment(line, "\n"));
  }

  /** A line free of boundaries followed by "\r\n" is split off as one
      line: the pair is a single boundary and leaves no empty line behind. */
  lemma SplitLinesConsCRLF(line: string, rest: string)
    requires NoBreak(line)
    ensures SplitLines(line + "\r\n" + rest) == [line] + SplitLines(rest)
  {
    var s := line + "\r\n" + rest;
    var k := |line|;
    assert s[k] == '\r' && s[k + 1] == '\n';
    BreakFromSkips(s, 0, k);
    assert EndingLength(s, k) == 2;
    assert s[..k] == line && s[k..k + 2] == "\r\n" && s[k + 2..] == rest;
    assert Segments(s) == [Segment(line, "\r\n")] + Segments(rest);
    SplitLinesStep(s, rest, Segment(line, "\r\n"));
  }

  /** Splitting a text whose first segment is `head` and whose remaining
      segments are those of `rest` gives `head`'s line, then the lines of
      `rest`. */
  lemma SplitLinesStep(s: string, rest: string, head: Segment)
    requires Segments(s) == [head] + Segments(rest)
    ensures SplitLines(s) == [head.line] + SplitLines(rest)
  {
    var a, b := SplitLines(s), SplitLines(rest);
    var sa, sb := Segments(s), Segments(rest);
    var c := [head.line] + b;
    assert |a| == |sa| == |sb| + 1 == |c|;
    forall i | 0 <= i < |a|
      ensures a[i] == c[i]
    {
      if i == 0 {
        assert a[0] == sa[0].line;
      } else {
        assert a[i] == sa[i].line && b[i - 1] == sb[i - 1].line;
        assert sa[i] == sb[i - 1];
      }
    }
  }

  /** A non-empty text without boundaries is one line. */
  lemma SplitLinesSingle(line: string)
    requires |line| > 0 && NoBreak(line)
    ensures SplitLines(line) == [line]
  {
    BreakFromNone(line, 0);
    assert line[..|line|] == line;
  }

  /** Splitting undoes terminating: lines free of boundaries come back
      exactly, and the final "\n" adds no empty line. */
  lemma {:induction false} SplitLinesTerminate(lines: seq<string>)
    requires forall i :: 0 <= i < |lines| ==> NoBreak(lines[i])
    ensures SplitLines(Terminate(lines)) == lines
  {
    if lines != [] {
      SplitLinesCons(lines[0], Terminate(lines[1..]));
      SplitLinesTerminate(lines[1..]);
    }
  }

  /** Without a boundary after `from`, `BreakFrom` reaches the end. */
  lemma {:induction false} BreakFromNone(s: string, from: nat)
    requires from <= |s| && forall m :: from <= m < |s| ==> !IsLineBreak(s[m])
    ensures BreakFrom(s, from) == |s|
    decreases |s| - from
  {
    if from < |s| {
      BreakFromNone(s, from + 1);
    }
  }

  /** `"\n".join(lines)`: the lines with "\n" between them. */
  function JoinLines(lines: seq<string>): string
    requires |lines| > 0
  {
    if |lines| == 1 then lines[0] else lines[0] + "\n" + JoinLines(lines[1..])
  }

  /** Splitting undoes joining with "\n" when no line holds a boundary and
      the last line is not empty (an empty last line would leave a trailing
      "\n", which `splitlines` does not turn into a line). */
  lemma {:induction false} SplitLinesJoin(lines: seq<string>)
    requires |lines| > 0 && |lines[|lines| - 1]| > 0
    requires forall i :: 0 <= i < |lines| ==> NoBreak(lines[i])
    ensures SplitLines(JoinLines(lines)) == lines
  {
    if |lines| == 1 {
      SplitLinesSingle(lines[0]);
    } else {
      var tail := lines[1..];
      assert tail[|tail| - 1] == lines[|lines| - 1];
      assert forall i :: 0 <= i < |tail| ==> tail[i] == lines[i + 1];
      SplitLinesJoin(tail);
      SplitLinesCons(lines[0], JoinLines(tail));
    }
  }

  /** `BreakFrom` stops at the first boundary: it passes over a run that holds none. */
  lemma {:induction false} BreakFromSkips(s: string, from: nat, k: nat)
    requires from <= k < |s| && IsLineBreak(s[k])
    requires forall m :: from <= m < k ==> !IsLineBreak(s[m])
    ensures BreakFrom(s, from) == k
    decreases k - from
  {
    if from < k {
      BreakFromSkips(s, from + 1, k);
    }
  }

  /** A character that is not a line boundary occurs in the text exactly when
      it occurs in one of its lines: splitting drops only boundaries. */
  lemma {:induction false} SplitLinesKeepsChar(text: string, c: char)
    requires !IsLineBreak(c)
    ensures c in text <==> exists i :: 0 <= i < |SplitLines(text)| && c in SplitLines(text)[i]
  {
    var lines := SplitLines(text);
    var segs := Segments(text);
    SegmentsWellFormed(text);
    RejoinKeepsChar(segs, c);
    if c in text {
      var i :| 0 <= i < |segs| && c in segs[i].line;
      assert c in lines[i];
    }
    if exists i :: 0 <= i < |lines| && c in lines[i] {
      var i :| 0 <= i < |lines| && c in lines[i];
      assert c in segs[i].line;
    }
  }

  lemma {:induction false} RejoinKeepsChar(segs: seq<Segment>, c: char)
    requires !IsLineBreak(c)
    requires forall i :: 0 <= i < |segs| ==> GoodSegment(segs[i])
    ensures c in Rejoin(segs) <==> exists i :: 0 <= i < |segs| && c in segs[i].line
  {
    if segs != [] {
      var head := segs[0];
      assert Rejoin(segs) == head.line + head.ending + Rejoin(segs[1..]);
      assert c !in head.ending;
      RejoinKeepsChar(segs[1..], c);
      if exists i :: 1 <= i < |segs| && c in segs[i].line {
        var i :| 1 <= i < |segs| && c in segs[i].line;
        assert c in segs[1..][i - 1].line;
      }
      if exists i :: 0 <= i < |segs[1..]| && c in segs[1..][i].line {
        var i :| 0 <= i < |segs[1..]| && c in segs[1..][i].line;
        assert c in segs[i + 1].line;
      }
    }
  }
}
