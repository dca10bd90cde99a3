/**
 The JavaScript comment masker: a lexer that blanks comments and template literals in
 place, so that what is left keeps its offsets.

 Whether a character is white space or a letter is Python's `str.isspace` and
 `str.isalpha`; every result below holds for any pair of such tests.
 */
module JsComments {

  datatype Mode = Normal | Line | Block | Template | Regex(inClass: bool) | Quoted(quote: char)

  datatype Classes = Classes(isSpace: char -> bool, isLetter: char -> bool)

  predicate IsBreak(c: char) {
    c == '\r' || c == '\n'
  }

  function Blanked(c: char): char {
    if IsBreak(c) then c else ' '
  }

  const REGEX_KEYWORDS: set<string> := {"return", "case", "throw", "else", "do", "yield", "await"}

  function LastInk(cc: Classes, output: string): (r: string)
    ensures |r| <= 1
  {
    if output == [] then []
    else if !cc.isSpace(output[|output| - 1]) then [output[|output| - 1]]
    else LastInk(cc, output[..|output| - 1])
  }

  function TrailingWord(cc: Classes, output: string): string {
    if output == [] || !cc.isLetter(output[|output| - 1]) then []
    else TrailingWord(cc, output[..|output| - 1]) + [output[|output| - 1]]
  }

  /** The guess whether a slash starts a regular expression; it reads the output so far. */
  predicate LooksLikeRegexStart(cc: Classes, output: string) {
    var previous := LastInk(cc, output);
    previous == [] || previous[0] in "=([{!,:;?&|+-*%^~<>" || TrailingWord(cc, output) in REGEX_KEYWORDS
  }

  /** Where a slash starts a regular expression: after nothing but white space, after an
      operator or an opening bracket and white space, or directly after one of seven words. */
  ghost predicate RegexCanStart(cc: Classes, output: string) {
    || (forall k :: 0 <= k < |output| ==> cc.isSpace(output[k]))
    || (exists k :: 0 <= k < |output| && IsLastInk(cc, output, k) && IsOperator(output[k]))
    || EndsInWord(cc, output, "return") || EndsInWord(cc, output, "case") || EndsInWord(cc, output, "throw")
    || EndsInWord(cc, output, "else") || EndsInWord(cc, output, "do") || EndsInWord(cc, output, "yield")
    || EndsInWord(cc, output, "await")
  }

  /** Nothing but white space follows. */
  ghost predicate IsLastInk(cc: Classes, output: string, k: nat)
    requires k < |output|
  {
    !cc.isSpace(output[k]) && forall j :: k < j < |output| ==> cc.isSpace(output[j])
  }

  ghost predicate IsOperator(c: char) {
    || c == '=' || c == '(' || c == '[' || c == '{' || c == '!' || c == ',' || c == ':' || c == ';' || c == '?'
    || c == '&' || c == '|' || c == '+' || c == '-' || c == '*' || c == '%' || c == '^' || c == '~' || c == '<'
    || c == '>'
  }

  /** The letters at the end are just this word. */
  ghost predicate EndsInWord(cc: Classes, output: string, w: string) {
    && |w| <= |output| && output[|output| - |w|..] == w && (forall c :: c in w ==> cc.isLetter(c))
    && (|w| < |output| ==> !cc.isLetter(output[|output| - |w| - 1]))
  }

  lemma {:induction false} LastInkExact(cc: Classes, output: string)
    ensures LastInk(cc, output) == [] <==> forall k :: 0 <= k < |output| ==> cc.isSpace(output[k])
    ensures LastInk(cc, output) != [] ==>
              exists k :: 0 <= k < |output| && IsLastInk(cc, output, k) && LastInk(cc, output) == [output[k]]
  {
    if output != [] {
      var n := |output| - 1;
      if cc.isSpace(output[n]) {
        LastInkExact(cc, output[..n]);
        if LastInk(cc, output) != [] {
          var k :| 0 <= k < n && IsLastInk(cc, output[..n], k) && LastInk(cc, output[..n]) == [output[..n][k]];
          assert forall j :: k < j < n ==> cc.isSpace(output[..n][j]);
          assert IsLastInk(cc, output, k);
        } else {
          assert forall k :: 0 <= k < n ==> cc.isSpace(output[..n][k]);
        }
      } else {
        assert IsLastInk(cc, output, n);
      }
    }
  }

  lemma {:induction false} TrailingWordEnds(cc: Classes, output: string)
    ensures EndsInWord(cc, output, TrailingWord(cc, output))
  {
    if output != [] && cc.isLetter(output[|output| - 1]) {
      var n := |output| - 1;
      var v := TrailingWord(cc, output[..n]);
      TrailingWordEnds(cc, output[..n]);
      assert output[n - |v|..] == output[..n][n - |v|..] + [output[n]];
    }
  }

  lemma LettersInside(cc: Classes, output: string, w: string)
    requires EndsInWord(cc, output, w)
    ensures forall p :: |output| - |w| <= p < |output| ==> cc.isLetter(output[p])
  {
    forall p | |output| - |w| <= p < |output| ensures cc.isLetter(output[p]) {
      var i := p - (|output| - |w|);
      assert output[|output| - |w|..][i] == w[i] && w[i] in w;
    }
  }

  lemma EndsInOneWord(cc: Classes, output: string, v: string, w: string)
    requires EndsInWord(cc, output, v) && EndsInWord(cc, output, w)
    ensures v == w
  {
    LettersInside(cc, output, v);
    LettersInside(cc, output, w);
  }

  lemma TrailingWordExact(cc: Classes, output: string, w: string)
    ensures TrailingWord(cc, output) == w <==> EndsInWord(cc, output, w)
  {
    TrailingWordEnds(cc, output);
    if EndsInWord(cc, output, w) {
      EndsInOneWord(cc, output, w, TrailingWord(cc, output));
    }
  }

  lemma OperatorsAre(c: char)
    ensures c in "=([{!,:;?&|+-*%^~<>" <==> IsOperator(c)
  {
  }

  /** The guess reads the output as that says. */
  lemma RegexStartExact(cc: Classes, output: string)
    ensures LooksLikeRegexStart(cc, output) <==> RegexCanStart(cc, output)
  {
    LastInkExact(cc, output);
    forall c ensures c in "=([{!,:;?&|+-*%^~<>" <==> IsOperator(c) {
      OperatorsAre(c);
    }
    TrailingWordExact(cc, output, "return");
    TrailingWordExact(cc, output, "case");
    TrailingWordExact(cc, output, "throw");
    TrailingWordExact(cc, output, "else");
    TrailingWordExact(cc, output, "do");
    TrailingWordExact(cc, output, "yield");
    TrailingWordExact(cc, output, "await");
    assert forall j, k ::
        0 <= j < |output| && 0 <= k < |output| && IsLastInk(cc, output, j) && IsLastInk(cc, output, k) ==> j == k;
  }

  /** One turn of the lexer's loop: the characters it writes (as many as it reads) and
      the state it moves to. */
  function Turn(cc: Classes, text: string, output: string, m: Mode): (r: (string, Mode))
    requires |output| < |text|
    ensures 1 <= |r.0| && |output| + |r.0| <= |text|
  {
    var i := |output|;
    var c := text[i];
    var more := i + 1 < |text|;
    match m
    case Normal =>
      if c == '/' && more && text[i + 1] == '/' then ("  ", Line)
      else if c == '/' && more && text[i + 1] == '*' then ("  ", Block)
      else if c == '/' && LooksLikeRegexStart(cc, output) then ([c], Regex(false))
      else if c == '`' then (" ", Template)
      else ([c], if c == '\'' || c == '"' then Quoted(c) else Normal)
    case Line =>
      ([Blanked(c)], if IsBreak(c) then Normal else Line)
    case Block =>
      if c == '*' && more && text[i + 1] == '/' then ("  ", Normal)
      else ([Blanked(c)], Block)
    case Template =>
      if c == '\\' && more then ([' ', if IsBreak(text[i + 1]) then '\n' else ' '], Template)
      else if c == '`' then (" ", Normal)
      else ([Blanked(c)], Template)
    case Regex(inClass) =>
      if c == '\\' && more then ([c, text[i + 1]], m)
      else ([c], if c == '[' then Regex(true)
            else if c == ']' then Regex(false)
            else if c == '/' && !inClass then Normal
            else m)
    case Quoted(quote) =>
      if c == '\\' && more then ([c, text[i + 1]], m)
      else ([c], if c == quote then Normal else m)
  }

  /** The lexer run to the end from a point where `output` has been written. */
  function Mask(cc: Classes, text: string, output: string, m: Mode): (r: string)
    requires |output| <= |text|
    ensures |r| == |text|
    ensures output <= r
    decreases |text| - |output|
  {
    if |output| == |text| then output
    else
      var turn := Turn(cc, text, output, m);
      Mask(cc, text, output + turn.0, turn.1)
  }

  /** Offsets, line breaks and every character that is not blanked survive. */
  ghost predicate SamePlaces(text: string, masked: string) {
    && |masked| == |text|
    && forall i :: 0 <= i < |text| ==> Survives(text[i], masked[i])
  }

  ghost predicate Survives(c: char, d: char) {
    && (EndsLine(d) <==> EndsLine(c))
    && (d == c || d == ' ' || d == '\n')
  }

  /** A carriage return or a line feed. */
  ghost predicate EndsLine(c: char) {
    c == '\r' || c == '\n'
  }

  lemma {:induction false} MaskKeepsPlaces(cc: Classes, text: string, output: string, m: Mode)
    requires |output| <= |text|
    requires forall i :: 0 <= i < |output| ==> Survives(text[i], output[i])
    ensures SamePlaces(text, Mask(cc, text, output, m))
    decreases |text| - |output|
  {
    if |output| < |text| {
      var turn := Turn(cc, text, output, m);
      forall i | 0 <= i < |output + turn.0|
        ensures Survives(text[i], (output + turn.0)[i])
      {
        if i >= |output| { assert i == |output| || i == |output| + 1; }
      }
      MaskKeepsPlaces(cc, text, output + turn.0, turn.1);
    }
  }

  // ----- A second run finds nothing left to mask

  /** The state of a lexer reading the masked text where the first one was in `m`: what
      the first run reads as a comment or a template is blank to the second. */
  function Echo(m: Mode): Mode {
    if m.Line? || m.Block? || m.Template? then Normal else m
  }

  /** Reading blanks and line breaks in the normal state copies them. */
  lemma EchoBlank(cc: Classes, masked: string, output: string, turn: string)
    requires |output| + |turn| <= |masked|
    requires output + turn <= masked
    requires 1 <= |turn| <= 2
    requires forall k :: 0 <= k < |turn| ==> turn[k] == ' ' || IsBreak(turn[k])
    ensures Mask(cc, masked, output, Normal) == Mask(cc, masked, output + turn, Normal)
  {
    assert masked[|output|] == turn[0];
    assert Mask(cc, masked, output, Normal) == Mask(cc, masked, output + [turn[0]], Normal);
    if |turn| == 2 {
      assert masked[|output| + 1] == turn[1];
      assert output + turn == output + [turn[0]] + [turn[1]];
    } else {
      assert turn == [turn[0]];
    }
  }

  lemma {:induction false} MaskEcho(cc: Classes, text: string, output: string, m: Mode)
    requires |output| <= |text|
    requires SamePlaces(text, Mask(cc, text, output, m))
    ensures var masked := Mask(cc, text, output, m);
            Mask(cc, masked, output, Echo(m)) == masked
    decreases |text| - |output|
  {
    if |output| < |text| {
      var masked := Mask(cc, text, output, m);
      var turn := Turn(cc, text, output, m);
      MaskEcho(cc, text, output + turn.0, turn.1);
      assert output + turn.0 <= masked;
      assert forall k :: 0 <= k < |turn.0| ==> masked[|output| + k] == turn.0[k];
      if m.Line? || m.Block? || m.Template? || turn.1.Line? || turn.1.Block? || turn.1.Template? {
        EchoBlank(cc, masked, output, turn.0);
      } else {
        EchoCopy(cc, text, masked, output, m);
      }
    }
  }

  /** A turn that copies its characters is the same turn on the masked text. */
  lemma EchoCopy(cc: Classes, text: string, masked: string, output: string, m: Mode)
    requires |output| < |text| && SamePlaces(text, masked)
    requires output + Turn(cc, text, output, m).0 <= masked
    requires !m.Line? && !m.Block? && !m.Template?
    requires var n := Turn(cc, text, output, m).1; !n.Line? && !n.Block? && !n.Template?
    ensures Turn(cc, masked, output, m) == Turn(cc, text, output, m)
  {
    var i := |output|;
    var turn := Turn(cc, text, output, m);
    assert masked[i] == turn.0[0] == text[i];
    if |turn.0| == 2 {
      assert masked[i + 1] == turn.0[1];
    } else if i + 1 < |text| {
      assert Survives(text[i + 1], masked[i + 1]);
    }
  }

  function StripJsComments(cc: Classes, text: string): string {
    Mask(cc, text, [], Normal)
  }

  lemma StripKeepsPlaces(cc: Classes, text: string)
    ensures SamePlaces(text, StripJsComments(cc, text))
  {
    MaskKeepsPlaces(cc, text, [], Normal);
  }

  lemma StripIdempotent(cc: Classes, text: string)
    ensures StripJsComments(cc, StripJsComments(cc, text)) == StripJsComments(cc, text)
  {
    StripKeepsPlaces(cc, text);
    MaskEcho(cc, text, [], Normal);
  }

  // ----- The loop

  method StripJsCommentsScan(cc: Classes, text: string) returns (output: string)
    ensures output == StripJsComments(cc, text)
  {
    output := [];
    var index := 0;
    var state := Normal;
    while index < |text|
      invariant index == |output| <= |text|
      invariant Mask(cc, text, output, state) == StripJsComments(cc, text)
      decreases |text| - index
    {
      var c := text[index];
      var more := index + 1 < |text|;
      match state {
        case Normal =>
          if c == '/' && more && text[index + 1] == '/' {
            output, index, state := output + "  ", index + 2, Line;
          } else if c == '/' && more && text[index + 1] == '*' {
            output, index, state := output + "  ", index + 2, Block;
          } else if c == '/' && LooksLikeRegexStart(cc, output) {
            output, index, state := output + [c], index + 1, Regex(false);
          } else if c == '`' {
            output, index, state := output + " ", index + 1, Template;
          } else {
            state := if c == '\'' || c == '"' then Quoted(c) else Normal;
            output, index := output + [c], index + 1;
          }
        case Line =>
          if IsBreak(c) {
            output, state := output + [c], Normal;
          } else {
            output := output + " ";
          }
          index := index + 1;
        case Block =>
          if c == '*' && more && text[index + 1] == '/' {
            output, index, state := output + "  ", index + 2, Normal;
          } else {
            output, index := output + [Blanked(c)], index + 1;
          }
        case Template =>
          if c == '\\' && more {
            output := output + [' ', if IsBreak(text[index + 1]) then '\n' else ' '];
            index := index + 2;
          } else {
            if c == '`' {
              output, state := output + " ", Normal;
            } else {
              output := output + [Blanked(c)];
            }
            index := index + 1;
          }
        case Regex(inClass) =>
          if c == '\\' && more {
            output, index := output + [c, text[index + 1]], index + 2;
          } else {
            if c == '[' {
              state := Regex(true);
            } else if c == ']' {
              state := Regex(false);
            } else if c == '/' && !inClass {
              state := Normal;
            }
            output, index := output + [c], index + 1;
          }
        case Quoted(quote) =>
          if c == '\\' && more {
            output, index := output + [c, text[index + 1]], index + 2;
          } else {
            if c == quote {
              state := Normal;
            }
            output, index := output + [c], index + 1;
          }
      }
    }
  }
}
