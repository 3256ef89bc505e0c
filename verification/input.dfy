/** The input screen: live validation of the text area (`validateInput`) and the conversion of
    its text into term/definition pairs (`parseInput`). */
module Input {
  import opened Wrappers
  import opened Text

  /** One unit of game content. */
  datatype Pair = Pair(term: string, definition: string)

  /** What `validateInput` shows below the text area, and whether the start button is enabled. */
  datatype Feedback = Feedback(message: string, valid: bool)

  /** `JSON.parse` is outside the model: the oracle gives the pairs a structured input denotes,
      or None when the parser throws. */
  type JsonOracle = string -> Option<seq<Pair>>

  /** The trimmed text starts with `[` and is handed to the JSON parser. */
  predicate IsStructured(input: string) {
    |input| > 0 && input[0] == '['
  }

  /** `lines.filter(line => line.trim())`: the lines that are not blank, in their order. */
  function NonBlank(lines: seq<string>): (r: seq<string>)
    ensures |r| <= |lines|
    ensures forall k :: 0 <= k < |r| ==> Trim(r[k]) != [] && r[k] in lines
  {
    if lines == [] then []
    else
      var rest := NonBlank(lines[1..]);
      assert forall k :: 0 <= k < |rest| ==> rest[k] in lines[1..];
      if Trim(lines[0]) != [] then [lines[0]] + rest else rest
  }

  /** No non-blank line is dropped by the filter. */
  lemma {:induction false} NonBlankKeeps(lines: seq<string>, k: nat)
    requires k < |lines| && Trim(lines[k]) != []
    ensures lines[k] in NonBlank(lines)
  {
    var rest := NonBlank(lines[1..]);
    if k > 0 {
      assert lines[1..][k - 1] == lines[k];
      NonBlankKeeps(lines[1..], k - 1);
      assert NonBlank(lines) == [lines[0]] + rest || NonBlank(lines) == rest;
    } else {
      assert NonBlank(lines) == [lines[0]] + rest;
    }
  }

  /** The filter works line by line: filtering two runs of lines one after the other is
      filtering each run, so every line that is not blank is kept, as often as it occurs and
      in its place. */
  lemma {:induction false} NonBlankAppend(a: seq<string>, b: seq<string>)
    ensures NonBlank(a + b) == NonBlank(a) + NonBlank(b)
  {
    if a == [] {
      assert a + b == b;
    } else {
      assert (a + b)[0] == a[0];
      assert (a + b)[1..] == a[1..] + b;
      NonBlankAppend(a[1..], b);
    }
  }

  /** A single line is kept exactly when it is not blank. */
  lemma NonBlankOne(line: string)
    ensures NonBlank([line]) == if Trim(line) != [] then [line] else []
  {
    assert [line][1..] == [];
  }

  /** `input.split('\n').filter(line => line.trim())`. */
  function PlainLines(input: string): (r: seq<string>)
    ensures forall k :: 0 <= k < |r| ==> Trim(r[k]) != [] && '\n' !in r[k]
  {
    NonBlank(Split(input, '\n'))
  }

  /** `validateInput` (TermFlip/js/app.js:50-76). */
  function ValidateInput(raw: string, json: JsonOracle): (r: Feedback)
    ensures r.valid ==> Trim(raw) != []
  {
    var input := Trim(raw);
    if input == [] then Feedback("", false)
    else if IsStructured(input) then
      if json(input).Some? then Feedback("Valid JSON format", true)
      else Feedback("Invalid format", false)
    else
      var lines := PlainLines(input);
      if |lines| >= 2 && |lines| % 2 == 0 then Feedback("Valid plain text format", true)
      else Feedback("Plain text must have pairs of lines", false)
  }

  /** The start button is enabled exactly when one of the two success messages is shown. */
  lemma FeedbackMessages(raw: string, json: JsonOracle)
    ensures var r := ValidateInput(raw, json);
      r.valid <==> r.message in {"Valid JSON format", "Valid plain text format"}
  {
  }

  /** Consecutive lines paired up, each side trimmed: what the loop of `parseInput` pushes. */
  function PairUp(lines: seq<string>): (r: seq<Pair>)
    requires |lines| % 2 == 0
    ensures |r| == |lines| / 2
    ensures forall k :: 0 <= k < |r| ==> r[k] == Pair(Trim(lines[2 * k]), Trim(lines[2 * k + 1]))
    decreases |lines|
  {
    if lines == [] then []
    else
      var n := |lines|;
      var front := PairUp(lines[..n - 2]);
      var r := front + [Pair(Trim(lines[n - 2]), Trim(lines[n - 1]))];
      assert forall k :: 0 <= k < |r| ==> r[k] == Pair(Trim(lines[2 * k]), Trim(lines[2 * k + 1])) by {
        forall k | 0 <= k < |r| ensures r[k] == Pair(Trim(lines[2 * k]), Trim(lines[2 * k + 1])) {
          if k < |front| {
            assert 2 * k + 1 < n - 2;
            assert lines[..n - 2][2 * k] == lines[2 * k] && lines[..n - 2][2 * k + 1] == lines[2 * k + 1];
          } else {
            assert 2 * k == n - 2;
          }
        }
      }
      r
  }

  /** What `parseInput` returns, None where it throws: the JSON parser rejects the text, or
      an odd count of lines makes the last `lines[i + 1].trim()` read past the end. */
  function Parsed(raw: string, json: JsonOracle): (r: Option<seq<Pair>>)
    ensures !IsStructured(Trim(raw)) ==>
      (r.Some? <==> |PlainLines(Trim(raw))| % 2 == 0) &&
      (r.Some? ==> 2 * |r.value| == |PlainLines(Trim(raw))|)
  {
    var input := Trim(raw);
    if IsStructured(input) then json(input)
    else
      var lines := PlainLines(input);
      if |lines| % 2 == 0 then Some(PairUp(lines)) else None
  }

  /** `parseInput` (TermFlip/js/app.js:84-101). */
  method ParseInput(raw: string, json: JsonOracle) returns (r: Option<seq<Pair>>)
    ensures r == Parsed(raw, json)
  {
    var input := Trim(raw);
    if IsStructured(input) {
      return json(input);
    }
    r := PairLines(PlainLines(input));
  }

  /** The loop of `parseInput` (TermFlip/js/app.js:92-97): walks the lines two at a time and
      pushes one trimmed pair per step. */
  method PairLines(lines: seq<string>) returns (r: Option<seq<Pair>>)
    ensures r == if |lines| % 2 == 0 then Some(PairUp(lines)) else None
  {
    var pairs: seq<Pair> := [];
    var i := 0;
    while i < |lines|
      invariant i % 2 == 0 && i <= |lines|
      invariant pairs == PairUp(lines[..i])
    {
      if i + 1 == |lines| {
        // lines[i + 1] is undefined and calling trim on it throws
        assert |lines| % 2 == 1;
        return None;
      }
      ghost var window := lines[..i + 2];
      assert |window| % 2 == 0;
      assert window[..i] == lines[..i] && window[i] == lines[i] && window[i + 1] == lines[i + 1];
      assert PairUp(window) == PairUp(lines[..i]) + [Pair(Trim(lines[i]), Trim(lines[i + 1]))];
      pairs := pairs + [Pair(Trim(lines[i]), Trim(lines[i + 1]))];
      i := i + 2;
    }
    assert lines[..i] == lines;
    return Some(pairs);
  }

  /** For plain text, the input is accepted exactly when parsing it succeeds with at least one
      pair, so a game never starts from a plain text that cannot be paired up. */
  lemma PlainValidIffPairs(raw: string, json: JsonOracle)
    requires !IsStructured(Trim(raw))
    ensures ValidateInput(raw, json).valid <==> Parsed(raw, json).Some? && |Parsed(raw, json).value| >= 1
  {
    var input := Trim(raw);
    if input == [] {
      assert Split(input, '\n') == [""];
      assert Trim("") == [];
      assert PlainLines(input) == [];
    }
  }

  /** For structured text, validity is exactly the oracle's verdict, and an accepted text
      parses. */
  lemma StructuredValidIffParses(raw: string, json: JsonOracle)
    requires IsStructured(Trim(raw))
    ensures ValidateInput(raw, json).valid <==> Parsed(raw, json).Some?
  {
  }

  /** Whatever the input, an accepted text parses: the start handler never parses a text the
      validation refused, and never one it cannot parse. */
  lemma AcceptedParses(raw: string, json: JsonOracle)
    ensures ValidateInput(raw, json).valid ==> Parsed(raw, json).Some?
  {
    if IsStructured(Trim(raw)) {
      StructuredValidIffParses(raw, json);
    } else {
      PlainValidIffPairs(raw, json);
    }
  }

  /** Text that is empty after trimming is refused with an empty message. */
  lemma BlankRejected(raw: string, json: JsonOracle)
    requires AllSpace(raw)
    ensures ValidateInput(raw, json) == Feedback("", false)
    ensures Parsed(raw, json) == Some([])
  {
    assert Split("", '\n') == [""];
    assert Trim("") == [];
  }

  /** A line as a user types it: not empty, no line break, no white space at either end. */
  predicate IsCleanLine(line: string) {
    line != [] && '\n' !in line && !IsSpace(line[0]) && !IsSpace(line[|line| - 1])
  }

  /** A filter that finds nothing blank keeps every line. */
  lemma {:induction false} NonBlankAll(lines: seq<string>)
    requires forall k :: 0 <= k < |lines| ==> Trim(lines[k]) != []
    ensures NonBlank(lines) == lines
  {
    if lines != [] {
      NonBlankAll(lines[1..]);
    }
  }

  /** Clean lines are their own trimmed form. */
  lemma CleanLinesTrimmed(lines: seq<string>)
    requires forall k :: 0 <= k < |lines| ==> IsCleanLine(lines[k])
    ensures forall k :: 0 <= k < |lines| ==> Trim(lines[k]) == lines[k] && lines[k] != []
  {
    forall k | 0 <= k < |lines| ensures Trim(lines[k]) == lines[k] {
      TrimKeeps(lines[k]);
    }
  }

  /** Clean lines joined by line breaks neither start nor end with white space. */
  lemma JoinedTrimmed(lines: seq<string>)
    requires |lines| >= 1 && forall k :: 0 <= k < |lines| ==> IsCleanLine(lines[k])
    ensures Trim(Join(lines, '\n')) == Join(lines, '\n')
  {
    var text := Join(lines, '\n');
    JoinEnds(lines, '\n');
    assert IsCleanLine(lines[0]) && IsCleanLine(lines[|lines| - 1]);
    TrimKeeps(text);
  }

  /** Clean lines joined by line breaks split and filter back to themselves. */
  lemma JoinedLines(lines: seq<string>)
    requires |lines| >= 1 && forall k :: 0 <= k < |lines| ==> IsCleanLine(lines[k])
    ensures PlainLines(Join(lines, '\n')) == lines
  {
    CleanLinesTrimmed(lines);
    NonBlankAll(lines);
    SplitJoin(lines, '\n');
  }

  /** Lines that are already trimmed pair up as they are. */
  lemma PairUpTrimmed(lines: seq<string>)
    requires |lines| % 2 == 0
    requires forall k :: 0 <= k < |lines| ==> Trim(lines[k]) == lines[k]
    ensures forall k :: 0 <= k < |PairUp(lines)| ==> PairUp(lines)[k] == Pair(lines[2 * k], lines[2 * k + 1])
  {
  }

  /** Clean lines typed one per line (and not starting with `[`) are accepted exactly when there
      are an even number of at least two of them, and then parse to the consecutive pairs, in order. */
  lemma TypedLines(lines: seq<string>, json: JsonOracle)
    requires |lines| >= 1 && forall k :: 0 <= k < |lines| ==> IsCleanLine(lines[k])
    requires !IsStructured(lines[0])
    ensures ValidateInput(Join(lines, '\n'), json).valid <==> |lines| >= 2 && |lines| % 2 == 0
    ensures |lines| % 2 == 0 ==> Parsed(Join(lines, '\n'), json) == Some(PairUp(lines))
    ensures |lines| % 2 == 0 ==>
      forall k :: 0 <= k < |PairUp(lines)| ==> PairUp(lines)[k] == Pair(lines[2 * k], lines[2 * k + 1])
  {
    var text := Join(lines, '\n');
    CleanLinesTrimmed(lines);
    JoinedTrimmed(lines);
    JoinedLines(lines);
    JoinEnds(lines, '\n');
    assert Trim(text) == text && text[0] == lines[0][0];
    assert !IsStructured(Trim(text));
    assert PlainLines(Trim(text)) == lines;
    if |lines| % 2 == 0 {
      PairUpTrimmed(lines);
    }
  }

  /** A typed line: no line break, and either clean or blank. */
  predicate IsTypedLine(line: string) {
    '\n' !in line && (IsCleanLine(line) || AllSpace(line))
  }

  /** Typed lines, blank ones anywhere between a clean first and a clean last line, are accepted
      exactly when the lines that are not blank come in an even number of at least two; then they
      parse to those lines paired up in order. The blank lines are simply skipped. */
  lemma TypedLinesWithBlanks(lines: seq<string>, json: JsonOracle)
    requires |lines| >= 1 && forall k :: 0 <= k < |lines| ==> IsTypedLine(lines[k])
    requires IsCleanLine(lines[0]) && IsCleanLine(lines[|lines| - 1]) && !IsStructured(lines[0])
    ensures PlainLines(Trim(Join(lines, '\n'))) == NonBlank(lines)
    ensures ValidateInput(Join(lines, '\n'), json).valid <==>
      |NonBlank(lines)| >= 2 && |NonBlank(lines)| % 2 == 0
    ensures |NonBlank(lines)| % 2 == 0 ==> Parsed(Join(lines, '\n'), json) == Some(PairUp(NonBlank(lines)))
  {
    var text := Join(lines, '\n');
    JoinEnds(lines, '\n');
    TrimKeeps(text);
    assert Trim(text) == text && text[0] == lines[0][0];
    assert !IsStructured(Trim(text));
    SplitJoin(lines, '\n');
    assert PlainLines(Trim(text)) == NonBlank(lines);
  }

  /** A repeated line is kept each time it occurs: two equal terms with their two equal
      definitions, even with a blank line between them, make two pairs. */
  lemma RepeatedLinesKept(a: string, b: string, blank: string)
    requires IsCleanLine(a) && IsCleanLine(b) && AllSpace(blank)
    ensures NonBlank([a, blank, a, b, b]) == [a, a, b, b]
    ensures PairUp(NonBlank([a, blank, a, b, b])) == [Pair(a, a), Pair(b, b)]
  {
    TrimKeeps(a);
    TrimKeeps(b);
    NonBlankOne(a);
    NonBlankOne(b);
    NonBlankOne(blank);
    FiveLines(a, blank, b);
    NonBlankAppend([b], [b]);
    NonBlankAppend([a], [b] + [b]);
    NonBlankAppend([blank], [a] + ([b] + [b]));
    NonBlankAppend([a], [blank] + ([a] + ([b] + [b])));
    FiveLines(a, [], b);
    PairsOfTwoLines(a, b);
  }

  /** Five lines as single lines put one after the other. */
  lemma FiveLines<T>(a: T, x: T, b: T)
    ensures [a, x, a, b, b] == [a] + ([x] + ([a] + ([b] + [b])))
    ensures [a, a, b, b] == [a] + ([] + ([a] + ([b] + [b])))
  {
  }

  /** Four trimmed lines pair up as the first two and the last two. */
  lemma PairsOfTwoLines(a: string, b: string)
    requires Trim(a) == a && Trim(b) == b
    ensures PairUp([a, a, b, b]) == [Pair(a, a), Pair(b, b)]
  {
    var lines := [a, a, b, b];
    assert lines[..2] == [a, a];
    assert PairUp([a, a]) == PairUp([]) + [Pair(a, a)];
  }
}
