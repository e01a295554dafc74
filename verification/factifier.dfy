/** The fact parser of `Factifier`: the language model's reply is split into
    lines, and from each line the regular expression `-(?:\s*)(?P<fact>.*)`
    is searched for; the `fact` group of every line that matches is kept,
    in line order. The call to the model itself is not modelled: its reply
    is the input. */
module Factifier {
  import opened Text
  import opened Lines

  /** Where a chunk came from: its file, its class labels and its text. */
  datatype Source = Source(file: string, classes: seq<string>, chunk: string)

  /** One extracted fact and the identifier of the chunk it came from. */
  datatype Fact = Fact(fact: string, source: string)

  datatype Option<T> = None | Some(value: T)

  /** Where a match of the fact pattern lies in a line: `start` is the
      position of the `-`, and the `fact` group is `line[group..end]`. */
  datatype Span = Span(start: nat, group: nat, end: nat)

  /** The end of the run of characters satisfying `inRun` that begins at
      `from`: the first position at or after `from` whose character is not
      in the run, or `|s|`. */
  function RunEnd(s: string, from: nat, inRun: char -> bool): (k: nat)
    requires from <= |s|
    ensures from <= k <= |s|
    ensures forall m :: from <= m < k ==> inRun(s[m])
    ensures k < |s| ==> !inRun(s[k])
    decreases |s| - from
  {
    if from == |s| || !inRun(s[from]) then from else RunEnd(s, from + 1, inRun)
  }

  /** `sp` is the match `re.search` reports for the fact pattern in `line`:
      the leftmost `-`, then the longest run of `\s`, then the longest run of
      characters other than "\n" (what `.` matches without DOTALL). */
  predicate IsMatch(line: string, sp: Span) {
    && sp.start < sp.group <= sp.end <= |line|
    && line[sp.start] == '-'
    && (forall m :: 0 <= m < sp.start ==> line[m] != '-')
    && (forall m :: sp.start < m < sp.group ==> IsSpace(line[m]))
    && (sp.group == |line| || !IsSpace(line[sp.group]))
    && (forall m :: sp.group <= m < sp.end ==> line[m] != '\n')
    && (sp.end == |line| || line[sp.end] == '\n')
  }

  /** `re.search(r"-(?:\s*)(?P<fact>.*)", line)`. The pattern can match
      after any `-`, so the search fails exactly when the line has no `-`. */
  function Search(line: string): (r: Option<Span>)
    ensures r.None? <==> '-' !in line
    ensures r.Some? ==> IsMatch(line, r.value)
  {
    var i := RunEnd(line, 0, c => c != '-');
    if i == |line| then
      None
    else
      var j := RunEnd(line, i + 1, IsSpace);
      var k := RunEnd(line, j, c => c != '\n');
      Some(Span(i, j, k))
  }

  /** A line has at most one match of the pattern. */
  lemma MatchUnique(line: string, a: Span, b: Span)
    requires IsMatch(line, a) && IsMatch(line, b)
    ensures a == b
  {
  }

  /** What one line contributes: the `fact` group of its match, or nothing
      when the line has no `-`. A fact never starts with whitespace and
      holds no "\n". */
  function ParseLine(line: string): (r: Option<string>)
    ensures r.None? <==> '-' !in line
    ensures r.Some? ==> '\n' !in r.value
    ensures r.Some? && |r.value| > 0 ==> !IsSpace(r.value[0])
  {
    match Search(line)
    case None => None
    case Some(sp) =>
      var f := line[sp.group..sp.end];
      assert forall m :: 0 <= m < |f| ==> f[m] == line[sp.group + m];
      Some(f)
  }

  /** `f` is a suffix of `s`. */
  predicate IsSuffix(f: string, s: string) {
    |f| <= |s| && f == s[|s| - |f|..]
  }

  /** On a line without "\n" the fact runs to the end of the line, so it is
      a suffix of the line, and a shorter one: the `-` is not part of it. */
  lemma FactIsSuffix(line: string)
    requires '-' in line && '\n' !in line
    ensures IsSuffix(ParseLine(line).value, line) && |ParseLine(line).value| < |line|
  {
    var sp := Search(line).value;
    assert forall m :: 0 <= m < |line| ==> line[m] != '\n';
    assert sp.end == |line|;
  }

  /** The fact of a line without boundaries has no boundaries either. */
  lemma FactOfLineHasNoBreak(line: string)
    requires NoBreak(line) && '-' in line
    ensures NoBreak(ParseLine(line).value)
  {
    assert forall m :: 0 <= m < |line| ==> line[m] != '\n';
    FactIsSuffix(line);
    var f := ParseLine(line).value;
    assert forall m :: 0 <= m < |f| ==> f[m] == line[|line| - |f| + m];
  }

  /** `ParseLine` yields exactly the text of the match's `fact` group. */
  lemma ParseLineIsGroup(line: string, f: string)
    ensures ParseLine(line) == Some(f) <==> exists sp :: IsMatch(line, sp) && f == line[sp.group..sp.end]
  {
    if exists sp :: IsMatch(line, sp) && f == line[sp.group..sp.end] {
      var sp :| IsMatch(line, sp) && f == line[sp.group..sp.end];
      var found := Search(line);
      assert found.Some?;
      MatchUnique(line, sp, found.value);
    }
  }

  /** Python's `s.lstrip()`: `s` without its leading whitespace. */
  function LStrip(s: string): string {
    if |s| > 0 && IsSpace(s[0]) then LStrip(s[1..]) else s
  }

  lemma {:induction false} LStripIsRunEnd(s: string, from: nat)
    requires from <= |s|
    ensures LStrip(s[from..]) == s[RunEnd(s, from, IsSpace)..]
    decreases |s| - from
  {
    if from < |s| && IsSpace(s[from]) {
      assert s[from..][1..] == s[from + 1..];
      LStripIsRunEnd(s, from + 1);
    }
  }

  /** On a line without "\n", the fact is what follows the first `-`, with
      its leading whitespace stripped and everything else, trailing
      whitespace included, kept: `line[line.index("-") + 1:].lstrip()`. */
  lemma FactAfterFirstDash(line: string, i: nat)
    requires i < |line| && line[i] == '-' && '-' !in line[..i]
    requires '\n' !in line
    ensures ParseLine(line) == Some(LStrip(line[i + 1..]))
  {
    assert forall m :: 0 <= m < i ==> line[..i][m] == line[m];
    var sp := Search(line).value;
    assert sp.start == i;
    assert forall m :: 0 <= m < |line| ==> line[m] != '\n';
    assert sp.end == |line|;
    assert sp.group == RunEnd(line, i + 1, IsSpace);
    assert ParseLine(line) == Some(line[sp.group..sp.end]);
    assert line[sp.group..sp.end] == line[sp.group..];
    LStripIsRunEnd(line, i + 1);
  }

  /** Text that a bullet can carry whole: it does not start with whitespace
      and holds no "\n". */
  predicate BulletText(t: string) {
    (|t| > 0 ==> !IsSpace(t[0])) && '\n' !in t
  }

  /** A line that is a `-`, some whitespace and then text that starts with
      no whitespace and has no "\n" yields exactly that text. */
  lemma BulletLine(ws: string, text: string)
    requires forall m :: 0 <= m < |ws| ==> IsSpace(ws[m])
    requires |text| > 0 ==> !IsSpace(text[0])
    requires '\n' !in text
    ensures ParseLine("-" + ws + text) == Some(text)
  {
    var line := "-" + ws + text;
    var sp := Span(0, 1 + |ws|, |line|);
    assert forall m :: 0 <= m < |ws| ==> line[1 + m] == ws[m];
    assert forall m :: 0 <= m < |text| ==> line[1 + |ws| + m] == text[m];
    assert IsMatch(line, sp);
    assert line[sp.group..sp.end] == text;
    ParseLineIsGroup(line, text);
  }

  /** A line that is the marker "- " or "-" and then bullet text yields that
      text. */
  lemma MarkedLine(marker: string, t: string)
    requires marker == "- " || marker == "-"
    requires BulletText(t)
    ensures ParseLine(marker + t) == Some(t)
  {
    var ws := marker[1..];
    assert marker + t == "-" + ws + t;
    BulletLine(ws, t);
  }

  /** A `-` inside a word is a marker too. */
  lemma ExampleInnerDash()
    ensures ParseLine("well-known") == Some("known")
  {
    var line := "well-known";
    assert line[..4] == "well";
    assert line[5..] == "known";
    assert !IsSpace('k');
    FactAfterFirstDash(line, 4);
  }

  /** Trailing whitespace is kept. */
  lemma ExampleTrailingSpace()
    ensures ParseLine("- a  ") == Some("a  ")
  {
    assert BulletText("a  ");
    MarkedLine("- ", "a  ");
    assert "- " + "a  " == "- a  ";
  }

  /** A bare `-` gives the empty fact, which is kept. */
  lemma ExampleBareDash()
    ensures ParseLine("-") == Some("")
  {
    MarkedLine("-", "");
    assert "-" + "" == "-";
  }

  /** A line without `-` contributes nothing. */
  lemma ExampleNoMarker()
    ensures ParseLine("  no marker") == None
  {
    var line := "  no marker";
    assert line == [' ', ' ', 'n', 'o', ' ', 'm', 'a', 'r', 'k', 'e', 'r'];
  }

  /** `Factifier._parse`: the facts of the lines, one per line that holds a
      `-`, in line order. */
  function Parse(lines: seq<string>): (facts: seq<string>)
    ensures |facts| <= |lines|
  {
    if lines == [] then
      []
    else
      var rest := Parse(lines[1..]);
      match ParseLine(lines[0])
      case None => rest
      case Some(f) => [f] + rest
  }

  /** The number of lines that hold a `-`. */
  function DashLines(lines: seq<string>): nat {
    if lines == [] then 0 else (if '-' in lines[0] then 1 else 0) + DashLines(lines[1..])
  }

  /** Exactly one fact per line that holds a `-`. */
  lemma {:induction false} ParseLength(lines: seq<string>)
    ensures |Parse(lines)| == DashLines(lines)
  {
    if lines != [] {
      ParseLength(lines[1..]);
    }
  }

  /** Parsing distributes over concatenation of the lines, so the facts of
      earlier lines come before those of later lines. */
  lemma {:induction false} ParseAppend(a: seq<string>, b: seq<string>)
    ensures Parse(a + b) == Parse(a) + Parse(b)
  {
    if a == [] {
      assert a + b == b;
    } else {
      assert (a + b)[0] == a[0];
      assert (a + b)[1..] == a[1..] + b;
      ParseAppend(a[1..], b);
    }
  }

  /** No facts come out exactly when no line holds a `-`. */
  lemma {:induction false} ParseEmpty(lines: seq<string>)
    ensures Parse(lines) == [] <==> forall i :: 0 <= i < |lines| ==> '-' !in lines[i]
  {
    if lines != [] {
      ParseEmpty(lines[1..]);
      assert forall i :: 1 <= i < |lines| ==> lines[i] == lines[1..][i - 1];
    }
  }

  /** `f` is the fact of one of `lines`. */
  predicate IsFactOfSomeLine(lines: seq<string>, f: string) {
    exists i :: 0 <= i < |lines| && ParseLine(lines[i]) == Some(f)
  }

  /** Every fact is the fact of some line. */
  lemma ParseOrigins(lines: seq<string>)
    ensures forall n :: 0 <= n < |Parse(lines)| ==> IsFactOfSomeLine(lines, Parse(lines)[n])
  {
    forall n | 0 <= n < |Parse(lines)|
      ensures IsFactOfSomeLine(lines, Parse(lines)[n])
    {
      ParseOrigin(lines, n);
    }
  }

  /** The `n`-th fact is the fact of some line. */
  lemma {:induction false} ParseOrigin(lines: seq<string>, n: nat)
    requires n < |Parse(lines)|
    ensures IsFactOfSomeLine(lines, Parse(lines)[n])
  {
    var facts, rest := Parse(lines), Parse(lines[1..]);
    var head := ParseLine(lines[0]);
    if head.Some? && n == 0 {
      assert facts[0] == head.value;
      assert ParseLine(lines[0]) == Some(facts[n]);
    } else {
      var n' := if head.Some? then n - 1 else n;
      assert facts[n] == rest[n'];
      ParseOrigin(lines[1..], n');
      var i :| 0 <= i < |lines[1..]| && ParseLine(lines[1..][i]) == Some(rest[n']);
      assert ParseLine(lines[i + 1]) == Some(facts[n]);
    }
  }

  /** No fact holds "\n" or starts with whitespace. */
  lemma ParseFactsTrimmed(lines: seq<string>)
    ensures forall n :: 0 <= n < |Parse(lines)| ==>
      '\n' !in Parse(lines)[n] && (|Parse(lines)[n]| > 0 ==> !IsSpace(Parse(lines)[n][0]))
  {
    ParseOrigins(lines);
    forall n | 0 <= n < |Parse(lines)|
      ensures '\n' !in Parse(lines)[n] && (|Parse(lines)[n]| > 0 ==> !IsSpace(Parse(lines)[n][0]))
    {
      var i :| 0 <= i < |lines| && ParseLine(lines[i]) == Some(Parse(lines)[n]);
    }
  }

  /** A one-line list yields the fact of that line, if any. */
  lemma ParseSingle(line: string)
    ensures Parse([line]) == (if '-' in line then [ParseLine(line).value] else [])
  {
    assert [line][1..] == [];
  }

  /** A line made of `-` and whitespace only yields the empty fact, and the
      empty fact is kept in the output rather than filtered out. */
  lemma BlankBulletYieldsEmptyFact(line: string)
    requires |line| > 0 && line[0] == '-'
    requires forall m :: 1 <= m < |line| ==> IsSpace(line[m])
    ensures ParseLine(line) == Some("")
    ensures Parse([line]) == [""]
  {
    var sp := Search(line).value;
    assert sp.start == 0;
    ParseSingle(line);
  }

  /** Bulleted lines, with or without a space after the `-`, yield their
      text in order, and a line without `-` between them yields nothing. */
  lemma ParseBullets(la: string, lb: string, note: string, lg: string, a: string, b: string, g: string)
    requires BulletText(a) && BulletText(b) && BulletText(g)
    requires la == "- " + a && lb == "- " + b && lg == "-" + g
    requires '-' !in note
    ensures Parse([la, lb, note, lg]) == [a, b, g]
  {
    MarkedLine("- ", a);
    MarkedLine("- ", b);
    MarkedLine("-", g);
    assert Parse([lg]) == [g] by {
      assert [lg][1..] == [];
    }
    assert Parse([note, lg]) == [g] by {
      assert [note, lg][1..] == [lg];
    }
    assert Parse([lb, note, lg]) == [b, g] by {
      assert [lb, note, lg][1..] == [note, lg];
    }
    assert [la, lb, note, lg][1..] == [lb, note, lg];
  }

  /** The facts of the lines of a reply written with a marker per line. */
  lemma ParseExample()
    ensures Parse(["- alpha", "- beta", "  no marker", "-gamma"]) == ["alpha", "beta", "gamma"]
  {
    assert BulletText("alpha") && BulletText("beta") && BulletText("gamma");
    ExampleNoMarker();
    ParseBullets("- alpha", "- beta", "  no marker", "-gamma", "alpha", "beta", "gamma");
  }

  /** `Factifier.factify` once the model has answered: split the reply into
      lines and parse them. */
  function Factify(reply: string): (facts: seq<string>)
    ensures |facts| <= |SplitLines(reply)|
    ensures forall n :: 0 <= n < |facts| ==> NoBreak(facts[n])
  {
    var lines := SplitLines(reply);
    var facts := Parse(lines);
    ParseOrigins(lines);
    assert forall n :: 0 <= n < |facts| ==> NoBreak(facts[n]) by {
      forall n | 0 <= n < |facts|
        ensures NoBreak(facts[n])
      {
        var i :| 0 <= i < |lines| && ParseLine(lines[i]) == Some(facts[n]);
        FactOfLineHasNoBreak(lines[i]);
      }
    }
    facts
  }

  /** A reply yields no facts exactly when it holds no `-`; in particular the
      empty reply yields none. */
  lemma FactifyEmpty(reply: string)
    ensures Factify(reply) == [] <==> '-' !in reply
  {
    var lines := SplitLines(reply);
    ParseEmpty(lines);
    SplitLinesKeepsChar(reply, '-');
  }

  /** A reply of whitespace only yields no facts. */
  lemma FactifyWhitespace(reply: string)
    requires forall m :: 0 <= m < |reply| ==> IsSpace(reply[m])
    ensures Factify(reply) == []
  {
    FactifyEmpty(reply);
    assert forall m :: 0 <= m < |reply| ==> reply[m] != '-';
  }

  /** Every fact of a reply is a suffix of one of the reply's lines. */
  lemma FactifyFactsAreLineSuffixes(reply: string)
    ensures forall n :: 0 <= n < |Factify(reply)| ==>
      exists i :: 0 <= i < |SplitLines(reply)| && IsSuffix(Factify(reply)[n], SplitLines(reply)[i])
  {
    var lines := SplitLines(reply);
    var facts := Factify(reply);
    ParseOrigins(lines);
    forall n | 0 <= n < |facts|
      ensures exists i :: 0 <= i < |lines| && IsSuffix(facts[n], lines[i])
    {
      var i :| 0 <= i < |lines| && ParseLine(lines[i]) == Some(facts[n]);
      assert forall m :: 0 <= m < |lines[i]| ==> lines[i][m] != '\n';
      FactIsSuffix(lines[i]);
    }
  }

  /** A reply whose lines all end in "\n" yields the facts of its lines. */
  lemma FactifyTerminated(lines: seq<string>)
    requires forall i :: 0 <= i < |lines| ==> NoBreak(lines[i])
    ensures Factify(Terminate(lines)) == Parse(lines)
  {
    SplitLinesTerminate(lines);
  }

  /** A reply that is its lines joined with "\n" yields the facts of those
      lines, provided the last line is not empty. */
  lemma FactifyJoined(lines: seq<string>)
    requires |lines| > 0 && |lines[|lines| - 1]| > 0
    requires forall i :: 0 <= i < |lines| ==> NoBreak(lines[i])
    ensures Factify(JoinLines(lines)) == Parse(lines)
  {
    SplitLinesJoin(lines);
  }

  /** The reply "- alpha\n- beta\n  no marker\n-gamma" yields exactly
      "alpha", "beta" and "gamma". */
  lemma FactifyExample()
    ensures Factify("- alpha\n- beta\n  no marker\n-gamma") == ["alpha", "beta", "gamma"]
  {
    var lines := ["- alpha", "- beta", "  no marker", "-gamma"];
    assert JoinLines(lines) == "- alpha\n- beta\n  no marker\n-gamma";
    FactifyJoined(lines);
    ParseExample();
  }
}
