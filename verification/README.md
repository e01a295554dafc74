# Factifier reply parser

A Dafny model of the fact parser of the interview-summary pipeline. The
`Factifier` asks a language model to list the facts of a transcript chunk as
a bulleted list; `Factifier.factify` splits the model's reply with
`str.splitlines()` and `Factifier._parse` searches every line for the
regular expression `-(?:\s*)(?P<fact>.*)`, keeping the `fact` group of each
line that matches, in line order.

The pattern is easily read as "a leading bullet marker, then the rest of
the line trimmed". The code does not do that, and the model follows the
code:

- the match starts at the first `-` anywhere in the line, so `well-known`
  yields `known`;
- only the whitespace right after that `-` is skipped; trailing whitespace
  is kept, so `- a  ` yields `a  `;
- a bare `-` yields the empty fact, which stays in the output;
- a line with no `-` contributes nothing.

Files:

- `text.dfy` (module `Text`): the character classes. `IsSpace` is the `\s` of a
  Python 3 `str` pattern, which is exactly the set of characters for which
  `str.isspace()` holds. `IsLineBreak` is the set of line boundaries of
  `str.splitlines`.
- `lines.dfy` (module `Lines`): `str.splitlines()`, built from `Segments`.
  `Segments` gives each line together with the boundary that ended it, and
  `"\r\n"` counts as one boundary.
- `factifier.dfy` (module `Factifier`): the `Source` and `Fact` records.
  It also holds the regular-expression search (`Search`, specified by the
  leftmost-longest match predicate `IsMatch`), the per-line parse
  (`ParseLine`), `_parse` (`Parse`) and the split-then-parse composition
  (`Factify`). `.` is modelled as Python's default: any character but `"\n"`.
  So on a line given directly to `_parse`, the fact stops at the first
  `"\n"` after the whitespace run that follows the first `-`. A `"\n"`
  before that `-`, or inside that run (`\s` matches `"\n"`), does not cut
  it. Lines produced by `splitlines` never hold a `"\n"`.

## Model

| member | source | states |
|---|---|---|
| Lines.Segments | user_interview_summary/factify/factifier.py:55 | splitting loses nothing: the lines with their boundaries concatenate back to the reply, and only the empty reply has no lines |
| Lines.SegmentsWellFormed | user_interview_summary/factify/factifier.py:55 | every line is free of boundaries, every ending is "\r\n" or one boundary character, only the last line may lack an ending, and no segment is empty |
| Lines.SegmentsKeepCRLF | user_interview_summary/factify/factifier.py:55 | "\r\n" is one boundary, not two: a line ended by "\r" is never followed by an empty line ended by "\n" |
| Lines.HeadSegmentGood | user_interview_summary/factify/factifier.py:55 | the text before the first boundary, with that boundary, is a well-formed segment that has an ending |
| Lines.SplitLines | user_interview_summary/factify/factifier.py:55 | `splitlines()` gives one boundary-free line per segment, and the empty reply gives no lines |
| Lines.SplitLinesCons | user_interview_summary/factify/factifier.py:55 | a boundary-free line followed by "\n" is split off as exactly one line, whatever follows |
| Lines.SplitLinesConsCRLF | user_interview_summary/factify/factifier.py:55 | a boundary-free line followed by "\r\n" is split off as exactly one line, with no empty line between the "\r" and the "\n" |
| Lines.SplitLinesStep | user_interview_summary/factify/factifier.py:55 | when a text's segments are one segment followed by another text's segments, its lines are that segment's line followed by the other text's lines |
| Lines.SplitLinesSingle | user_interview_summary/factify/factifier.py:55 | a non-empty boundary-free text is a single line |
| Lines.SplitLinesTerminate | user_interview_summary/factify/factifier.py:55 | splitting undoes writing each line followed by "\n"; the final "\n" adds no empty line |
| Lines.SplitLinesJoin | user_interview_summary/factify/factifier.py:55 | splitting undoes `"\n".join` for boundary-free lines whose last line is non-empty |
| Lines.SplitLinesKeepsChar | user_interview_summary/factify/factifier.py:55 | a character that is not a boundary occurs in the reply if and only if it occurs in one of its lines |
| Factifier.Search | user_interview_summary/factify/factifier.py:48 | `re.search` fails exactly when the line has no `-`; otherwise its span is the leftmost `-`, the longest whitespace run after it, and the longest run without "\n" |
| Factifier.MatchUnique | user_interview_summary/factify/factifier.py:48 | a line has at most one such match, so the search result is determined by the line |
| Factifier.ParseLine | user_interview_summary/factify/factifier.py:46-49 | a line yields a fact if and only if it holds a `-`; the fact holds no "\n" and does not start with whitespace |
| Factifier.FactIsSuffix | user_interview_summary/factify/factifier.py:48 | on a line without "\n" the fact runs to the end of the line: it is a suffix of the line, shorter than the line |
| Factifier.ParseLineIsGroup | user_interview_summary/factify/factifier.py:46-48 | the fact is exactly the text of the match's `fact` group, in both directions |
| Factifier.FactAfterFirstDash | user_interview_summary/factify/factifier.py:48 | on a line without "\n", the fact equals the text after the first `-` with `lstrip()` applied, trailing whitespace kept |
| Factifier.ExampleInnerDash | user_interview_summary/factify/factifier.py:48 | `well-known` yields `known`: a `-` inside a word counts |
| Factifier.ExampleTrailingSpace | user_interview_summary/factify/factifier.py:48 | `- a  ` yields `a  `: trailing whitespace is kept |
| Factifier.ExampleBareDash | user_interview_summary/factify/factifier.py:48 | a bare `-` yields the empty fact |
| Factifier.ExampleNoMarker | user_interview_summary/factify/factifier.py:48-49 | `  no marker` yields nothing |
| Factifier.BulletLine | user_interview_summary/factify/factifier.py:48 | `-`, any whitespace, then text that starts with non-whitespace and has no "\n": the result is exactly that text |
| Factifier.MarkedLine | user_interview_summary/factify/factifier.py:48 | `- text` and `-text` both yield `text` when the text starts with non-whitespace and has no "\n" |
| Factifier.BlankBulletYieldsEmptyFact | user_interview_summary/factify/factifier.py:46-49 | a line of `-` then only whitespace yields the empty fact, and that fact is kept in the output |
| Factifier.Parse | user_interview_summary/factify/factifier.py:44-50 | `_parse` gives at most one fact per line |
| Factifier.ParseLength | user_interview_summary/factify/factifier.py:45-50 | the number of facts equals the number of lines holding a `-` |
| Factifier.ParseAppend | user_interview_summary/factify/factifier.py:45-50 | parsing `a + b` is parsing `a` followed by parsing `b`, so output order follows line order |
| Factifier.ParseEmpty | user_interview_summary/factify/factifier.py:45-50 | no facts come out if and only if no line holds a `-`; the empty list gives no facts |
| Factifier.ParseOrigin | user_interview_summary/factify/factifier.py:45-50 | the n-th fact is the fact of some input line |
| Factifier.ParseOrigins | user_interview_summary/factify/factifier.py:45-50 | every fact is the fact of some input line |
| Factifier.ParseFactsTrimmed | user_interview_summary/factify/factifier.py:45-50 | no fact of `_parse` holds "\n" or starts with whitespace |
| Factifier.ParseSingle | user_interview_summary/factify/factifier.py:45-50 | a one-line list yields that line's fact, or nothing when the line has no `-` |
| Factifier.ParseBullets | user_interview_summary/factify/factifier.py:44-50 | bulleted lines with a line without `-` between them yield the bullets' texts in order |
| Factifier.ParseExample | user_interview_summary/factify/factifier.py:44-50 | `["- alpha", "- beta", "  no marker", "-gamma"]` parses to `["alpha", "beta", "gamma"]` |
| Factifier.Factify | user_interview_summary/factify/factifier.py:52-55 | `factify` yields at most one fact per line of the reply, and no fact holds a line boundary |
| Factifier.FactOfLineHasNoBreak | user_interview_summary/factify/factifier.py:46-48 | the fact of a boundary-free line is boundary-free |
| Factifier.FactifyEmpty | user_interview_summary/factify/factifier.py:52-55 | a reply yields no facts if and only if it holds no `-`, so the empty reply yields none |
| Factifier.FactifyWhitespace | user_interview_summary/factify/factifier.py:52-55 | a whitespace-only reply yields no facts |
| Factifier.FactifyFactsAreLineSuffixes | user_interview_summary/factify/factifier.py:52-55 | every fact of a reply is a suffix of one of the reply's lines |
| Factifier.FactifyTerminated | user_interview_summary/factify/factifier.py:52-55 | a reply whose boundary-free lines each end in "\n" yields the parse of those lines |
| Factifier.FactifyJoined | user_interview_summary/factify/factifier.py:52-55 | a reply made by joining boundary-free lines with "\n", last line non-empty, yields the parse of those lines |
| Factifier.FactifyExample | user_interview_summary/factify/factifier.py:52-55 | the reply "- alpha\n- beta\n  no marker\n-gamma" yields exactly `["alpha", "beta", "gamma"]` |

## Left out

- The language-model call in `factify` (`LLMChain(...).run`, factifier.py:53-54) is external. The model's reply is an input string of `Factify`.
- `PROMPT_TEMPLATE` (factifier.py:28-42): the template substitution is a library call whose behaviour is not visible here.
- `Source.classes` holds values of the `Classes` enum, which is not part of this model. Labels are plain strings. The `Chain` base class is not part of this model either.
- `Source` and `Fact` are modelled as records only: nothing in the factifier builds them, because `factify` returns plain strings.
- `summ/cli/cli.py` (command wiring, the interrupt handler, the app launch) and `summ/__init__.py` (vector-index and key/value-store set-up) are process and service plumbing, so they are not modelled.
- Python strings may hold lone surrogate code points; Dafny characters are Unicode scalar values, so such strings are not modelled.
