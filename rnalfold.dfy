/**
 * The parser that turns RNAlfold's text output into the `.lfold` file:
 * the three trailing pieces are dropped, and every remaining line is
 * split on whitespace, repaired when the energy was split as `( -9.9)`,
 * stripped of its parentheses and written back as
 * `<dot-bracket> <energy>  <start>`.
 */
module RnaLfold {
  import opened Options
  import opened Text

  // ---------------------------------------------------------------------
  // One line
  // ---------------------------------------------------------------------

  predicate IsOpen(c: char) {
    c == '('
  }

  predicate IsClose(c: char) {
    c == ')'
  }

  /** `vienna_split[1].strip('(').strip(')').strip()`. */
  function Energy(field: string): string {
    Strip(Strip(Strip(field, IsOpen), IsClose), IsSpace)
  }

  /** `del vienna_split[1]` when a line splits into four tokens and the second is `(`. */
  function Repair(tokens: seq<string>): (ts: seq<string>)
    ensures |ts| == if |tokens| == 4 && tokens[1] == "(" then 3 else |tokens|
    ensures !(|tokens| == 4 && tokens[1] == "(") ==> ts == tokens
  {
    if |tokens| == 4 && tokens[1] == "(" then tokens[..1] + tokens[2..] else tokens
  }

  /** `'{} {}  {}\n'.format(dot_bracket, free_energy, start_pos)`. */
  function OutputLine(dotBracket: string, energy: string, startPos: string): string {
    dotBracket + " " + energy + "  " + startPos + "\n"
  }

  /** The line written for a line's tokens; `None` where indexing them raises `IndexError`. */
  function ParseTokens(tokens: seq<string>): Option<string> {
    var ts := Repair(tokens);
    if |ts| < 3 then None else Some(OutputLine(ts[0], Energy(ts[1]), ts[2]))
  }

  /** The line written for one line of RNAlfold output. */
  function LfoldLine(line: string): Option<string> {
    ParseTokens(Tokens(line))
  }

  // ---------------------------------------------------------------------
  // The whole output
  // ---------------------------------------------------------------------

  /** What running the parser leaves behind. */
  datatype LfoldResult =
    | TooShort                                      // a `del vienna_result[-1]` on an empty list, before the file is opened
    | Written(lines: seq<string>, complete: bool)   // the lines written; `complete` is false when a line raised `IndexError`

  /** The three `del vienna_result[-1]`; `None` when the list runs out first. */
  function RemoveTrailing(pieces: seq<string>): Option<seq<string>> {
    if |pieces| < 3 then None else Some(pieces[..|pieces| - 3])
  }

  /** A line loop that writes `parse(line)` for each line in order and stops at the first line that raises. */
  function WriteLines(lines: seq<string>, parse: string -> Option<string>): LfoldResult {
    if lines == [] then Written([], true)
    else
      var r := WriteLines(lines[..|lines| - 1], parse);
      if r.TooShort? || !r.complete then r
      else
        match parse(lines[|lines| - 1])
        case Some(out) => Written(r.lines + [out], true)
        case None => Written(r.lines, false)
  }

  /** The line loop of the script. */
  function LfoldLines(lines: seq<string>): LfoldResult {
    WriteLines(lines, LfoldLine)
  }

  /** The parser on RNAlfold's output text. */
  function LfoldOutput(output: string): LfoldResult {
    match RemoveTrailing(SplitOn(output, '\n'))
    case None => TooShort
    case Some(lines) => LfoldLines(lines)
  }

  /** One more line: its output is appended, or the loop stops at it. */
  lemma WriteLinesStep(lines: seq<string>, parse: string -> Option<string>, i: nat, written: seq<string>)
    requires i < |lines| && WriteLines(lines[..i], parse) == Written(written, true)
    ensures WriteLines(lines[..i + 1], parse)
      == match parse(lines[i])
         case Some(out) => Written(written + [out], true)
         case None => Written(written, false)
  {
    assert lines[..i + 1][..i] == lines[..i];
  }

  lemma {:induction false} WriteLinesFailureSticky(lines: seq<string>, parse: string -> Option<string>, k: nat)
    requires k <= |lines|
    requires WriteLines(lines[..k], parse).Written? && !WriteLines(lines[..k], parse).complete
    ensures WriteLines(lines, parse) == WriteLines(lines[..k], parse)
    decreases |lines| - k
  {
    if k < |lines| {
      assert lines[..k + 1][..k] == lines[..k];
      WriteLinesFailureSticky(lines, parse, k + 1);
    } else {
      assert lines[..k] == lines;
    }
  }

  /**
   * The lines written are the outputs of the longest prefix of lines
   * that parse, in order; the run is complete exactly when every line
   * parsed, and otherwise the line after the written ones is the one that
   * raised.
   */
  lemma {:induction false} WriteLinesWritten(lines: seq<string>, parse: string -> Option<string>)
    ensures WriteLines(lines, parse).Written?
    ensures var r := WriteLines(lines, parse);
      && |r.lines| <= |lines|
      && (forall k :: 0 <= k < |r.lines| ==> parse(lines[k]) == Some(r.lines[k]))
      && (r.complete <==> |r.lines| == |lines|)
      && (!r.complete ==> parse(lines[|r.lines|]).None?)
  {
    if lines != [] {
      var init := lines[..|lines| - 1];
      WriteLinesWritten(init, parse);
      assert forall k :: 0 <= k < |init| ==> init[k] == lines[k];
    }
  }

  /** `WriteLinesWritten` for the script's own line parser. */
  lemma LfoldLinesWritten(lines: seq<string>)
    ensures LfoldLines(lines).Written?
    ensures var r := LfoldLines(lines);
      && |r.lines| <= |lines|
      && (forall k :: 0 <= k < |r.lines| ==> LfoldLine(lines[k]) == Some(r.lines[k]))
      && (r.complete <==> |r.lines| == |lines|)
      && (!r.complete ==> LfoldLine(lines[|r.lines|]).None?)
  {
    WriteLinesWritten(lines, LfoldLine);
  }

  /** Dropping the trailing pieces keeps exactly the lines before the last three. */
  lemma RemoveTrailingOfJoin(body: seq<string>, tail: seq<string>)
    requires |tail| == 3
    requires forall i :: 0 <= i < |body + tail| ==> '\n' !in (body + tail)[i]
    ensures RemoveTrailing(SplitOn(Join("\n", body + tail), '\n')) == Some(body)
  {
    assert "\n" == ['\n'];
    SplitOfJoin(body + tail, '\n');
    assert (body + tail)[..|body|] == body;
  }

  // ---------------------------------------------------------------------
  // `strip` on a single parenthesis
  // ---------------------------------------------------------------------

  /** A bare free energy such as `-9.90`: nothing at its ends that any of the three strips removes. */
  predicate Bare(e: string) {
    e != [] && !IsOpen(e[0]) && !IsClose(e[0]) && !IsSpace(e[0])
    && !IsOpen(e[|e| - 1]) && !IsClose(e[|e| - 1]) && !IsSpace(e[|e| - 1])
  }

  lemma StripLeading(c: char, y: string, p: char -> bool)
    requires p(c) && y != [] && !p(y[0]) && !p(y[|y| - 1])
    ensures Strip([c] + y, p) == y
  {
    SpanLenOfRun([c], y, p);
    assert ([c] + y)[1..] == y;
  }

  lemma StripTrailing(x: string, c: char, p: char -> bool)
    requires p(c) && x != [] && !p(x[0]) && !p(x[|x| - 1])
    ensures Strip(x + [c], p) == x
  {
    assert SpanLen(x + [c], p) == 0;
    assert (x + [c])[..|x + [c]| - 1] == x;
  }

  /**
   * Parentheses around the energy go, whether RNAlfold printed it as
   * `(-9.90)` or the split left `-9.90)`; a bare energy stays as it is.
   */
  lemma EnergyOfField(e: string)
    requires Bare(e)
    ensures Energy("(" + e + ")") == e
    ensures Energy(e + ")") == e
    ensures Energy(e) == e
  {
    var closed := e + ")";
    assert closed == e + [')'];
    assert "(" + e + ")" == ['('] + closed;
    StripLeading('(', closed, IsOpen);
    StripNoop(closed, IsOpen);
    StripTrailing(e, ')', IsClose);
    StripNoop(e, IsOpen);
    StripNoop(e, IsClose);
    StripNoop(e, IsSpace);
  }

  // ---------------------------------------------------------------------
  // Tokens
  // ---------------------------------------------------------------------

  /** A leading whitespace character is skipped. */
  lemma TokensSkipSpace(c: char, rest: string)
    requires IsSpace(c)
    ensures Tokens([c] + rest) == Tokens(rest)
  {
    assert ([c] + rest)[1..] == rest;
  }

  /** A word followed by whitespace and more text. */
  lemma TokensOfWordThen(w: string, c: char, rest: string)
    requires IsWord(w) && IsSpace(c)
    ensures Tokens(w + ([c] + rest)) == [w] + Tokens(rest)
  {
    TokensOfWord(w, [c] + rest);
    TokensSkipSpace(c, rest);
  }

  lemma WordConcat(a: string, b: string)
    requires IsWord(a) && IsWord(b)
    ensures IsWord(a + b)
  {
    assert forall i :: 0 <= i < |a| ==> (a + b)[i] == a[i];
    assert forall i :: |a| <= i < |a + b| ==> (a + b)[i] == b[i - |a|];
  }

  /** An output line as one word, a space, a word, two spaces, a word and a newline. */
  lemma OutputLineShape(dotBracket: string, energy: string, startPos: string)
    ensures OutputLine(dotBracket, energy, startPos)
            == dotBracket + ([' '] + (energy + ([' '] + ([' '] + (startPos + (['\n'] + []))))))
  {
  }

  /** Splitting an output line again gives back its three fields. */
  lemma TokensOfOutputLine(dotBracket: string, energy: string, startPos: string)
    requires IsWord(dotBracket) && IsWord(energy) && IsWord(startPos)
    ensures Tokens(OutputLine(dotBracket, energy, startPos)) == [dotBracket, energy, startPos]
  {
    OutputLineShape(dotBracket, energy, startPos);
    var last := startPos + (['\n'] + []);
    TokensOfWordThen(startPos, '\n', []);
    var spaced := [' '] + last;
    TokensSkipSpace(' ', last);
    var mid := energy + ([' '] + spaced);
    TokensOfWordThen(energy, ' ', spaced);
    TokensOfWordThen(dotBracket, ' ', mid);
  }

  lemma ParenthesisedWords(energy: string)
    requires IsWord(energy)
    ensures IsWord("(" + energy + ")") && IsWord(energy + ")") && IsWord("(")
  {
    WordConcat("(", energy);
    WordConcat("(" + energy, ")");
    WordConcat(energy, ")");
  }

  lemma ParseWhole(dotBracket: string, energy: string, startPos: string)
    requires Bare(energy)
    ensures ParseTokens([dotBracket, "(" + energy + ")", startPos]) == Some(OutputLine(dotBracket, energy, startPos))
  {
    EnergyOfField(energy);
  }

  /** The repair on a line whose energy was split off its opening parenthesis. */
  lemma RepairDropsParen(dotBracket: string, closed: string, startPos: string)
    ensures Repair([dotBracket, "(", closed, startPos]) == [dotBracket, closed, startPos]
  {
    var ws := [dotBracket, "(", closed, startPos];
    assert ws[..1] == [dotBracket];
    assert ws[2..] == [closed, startPos];
  }

  lemma ParseSplit(dotBracket: string, energy: string, startPos: string)
    requires Bare(energy)
    ensures ParseTokens([dotBracket, "(", energy + ")", startPos]) == Some(OutputLine(dotBracket, energy, startPos))
  {
    RepairDropsParen(dotBracket, energy + ")", startPos);
    EnergyOfField(energy);
  }

  /** The energy written as one token, `(-9.90)`. */
  lemma LfoldLineOfWhole(dotBracket: string, energy: string, startPos: string)
    requires IsWord(dotBracket) && IsWord(energy) && IsWord(startPos) && Bare(energy)
    ensures LfoldLine(Join(" ", [dotBracket, "(" + energy + ")", startPos]))
            == Some(OutputLine(dotBracket, energy, startPos))
  {
    ParenthesisedWords(energy);
    TokensOfJoin([dotBracket, "(" + energy + ")", startPos]);
    ParseWhole(dotBracket, energy, startPos);
  }

  /** The energy split as `(` and `-9.90)`. */
  lemma LfoldLineOfSplit(dotBracket: string, energy: string, startPos: string)
    requires IsWord(dotBracket) && IsWord(energy) && IsWord(startPos) && Bare(energy)
    ensures LfoldLine(Join(" ", [dotBracket, "(", energy + ")", startPos]))
            == Some(OutputLine(dotBracket, energy, startPos))
  {
    ParenthesisedWords(energy);
    TokensOfJoin([dotBracket, "(", energy + ")", startPos]);
    ParseSplit(dotBracket, energy, startPos);
  }

  /**
   * Both shapes RNAlfold prints a line in give the same output line: the
   * energy in one token `(-9.90)`, or split as `(` and `-9.90)`.
   */
  lemma LfoldLineOfShapes(dotBracket: string, energy: string, startPos: string)
    requires IsWord(dotBracket) && IsWord(energy) && IsWord(startPos) && Bare(energy)
    ensures LfoldLine(Join(" ", [dotBracket, "(" + energy + ")", startPos]))
            == LfoldLine(Join(" ", [dotBracket, "(", energy + ")", startPos]))
            == Some(OutputLine(dotBracket, energy, startPos))
  {
    LfoldLineOfWhole(dotBracket, energy, startPos);
    LfoldLineOfSplit(dotBracket, energy, startPos);
  }

  /** An output line parses to itself: writing the file twice changes nothing. */
  lemma LfoldLineIdempotent(dotBracket: string, energy: string, startPos: string)
    requires IsWord(dotBracket) && IsWord(energy) && IsWord(startPos) && Bare(energy)
    ensures LfoldLine(OutputLine(dotBracket, energy, startPos)) == Some(OutputLine(dotBracket, energy, startPos))
  {
    TokensOfOutputLine(dotBracket, energy, startPos);
    EnergyOfBare(energy);
    ParseThree(dotBracket, energy, startPos);
  }

  lemma EnergyOfBare(e: string)
    requires Bare(e)
    ensures Energy(e) == e
  {
    StripNoop(e, IsOpen);
    StripNoop(e, IsClose);
    StripNoop(e, IsSpace);
  }

  /** Three tokens are written with the energy field stripped. */
  lemma ParseThree(dotBracket: string, energy: string, startPos: string)
    ensures ParseTokens([dotBracket, energy, startPos]) == Some(OutputLine(dotBracket, Energy(energy), startPos))
  {
    assert Repair([dotBracket, energy, startPos]) == [dotBracket, energy, startPos];
  }

  /** Tokens after the third are ignored, unless they make the four-token repair apply. */
  lemma LfoldLineIgnoresExtra(ws: seq<string>)
    requires |ws| >= 3 && forall i :: 0 <= i < |ws| ==> IsWord(ws[i])
    requires !(|ws| == 4 && ws[1] == "(")
    ensures LfoldLine(Join(" ", ws)) == LfoldLine(Join(" ", ws[..3]))
  {
    TokensOfJoin(ws);
    TokensOfJoin(ws[..3]);
  }

  // ---------------------------------------------------------------------
  // The script
  // ---------------------------------------------------------------------

  /** The token repair on one line's tokens. */
  method RepairSplit(viennaSplit: seq<string>) returns (repaired: seq<string>)
    ensures repaired == Repair(viennaSplit)
  {
    repaired := viennaSplit;
    if |repaired| == 4 {
      if repaired[1] == "(" {
        repaired := repaired[..1] + repaired[2..];
      }
    }
  }

  /** The three `del vienna_result[-1]`. */
  method DeleteLastThree(viennaResult: seq<string>) returns (r: Option<seq<string>>)
    ensures r == RemoveTrailing(viennaResult)
  {
    var rest := viennaResult;
    if rest == [] {
      return None;
    }
    rest := rest[..|rest| - 1];
    if rest == [] {
      return None;
    }
    rest := rest[..|rest| - 1];
    if rest == [] {
      return None;
    }
    rest := rest[..|rest| - 1];
    assert rest == viennaResult[..|viennaResult| - 3];
    r := Some(rest);
  }

  /** One pass of the line loop: split, repair, pick the three fields and format them. */
  method ParseLine(line: string) returns (out: Option<string>)
    ensures out == LfoldLine(line)
  {
    var viennaSplit := Tokens(line);
    viennaSplit := RepairSplit(viennaSplit);
    if |viennaSplit| < 3 {
      return None;
    }
    var dotBracket := viennaSplit[0];
    var freeEnergy := Energy(viennaSplit[1]);
    var startPos := viennaSplit[2];
    out := Some(OutputLine(dotBracket, freeEnergy, startPos));
  }

  /**
   * The script after the RNAlfold call: split the output into lines,
   * drop the last three, then parse and write line by line.
   */
  method ParseLfoldOutput(output: string) returns (r: LfoldResult)
    ensures r == LfoldOutput(output)
  {
    var trimmed := DeleteLastThree(SplitOn(output, '\n'));
    if trimmed.None? {
      return TooShort;
    }
    var viennaResult := trimmed.value;
    var written: seq<string> := [];
    for i := 0 to |viennaResult|
      invariant LfoldLines(viennaResult[..i]) == Written(written, true)
    {
      var out := ParseLine(viennaResult[i]);
      WriteLinesStep(viennaResult, LfoldLine, i, written);
      if out.None? {
        WriteLinesFailureSticky(viennaResult, LfoldLine, i + 1);
        return Written(written, false);
      }
      written := written + [out.value];
    }
    assert viennaResult[..|viennaResult|] == viennaResult;
    r := Written(written, true);
  }
}
