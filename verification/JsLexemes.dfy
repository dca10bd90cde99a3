/**
 What the JavaScript comment masker does to a text, by the lexemes of the text.
 */
module JsLexemes {
  import opened JsComments

  /** The pieces of a text.  A line comment carries the break that ends it; the others
      are enclosed by their delimiters. */
  datatype Lexeme =
    | Plain(c: char)
    | LineComment(body: string, end: char)
    | BlockComment(body: string)
    | TemplateLiteral(body: string)
    | StringLiteral(quote: char, body: string)
    | RegexLiteral(body: string)

  /** What a text may leave open at its end. */
  datatype Tail =
    | Nothing
    | OpenLine(body: string)
    | OpenBlock(body: string)
    | OpenTemplate(body: string)
    | OpenString(quote: char, body: string)
    | OpenRegex(body: string)

  function Source(x: Lexeme): string {
    match x
    case Plain(c) => [c]
    case LineComment(body, end) => "//" + body + [end]
    case BlockComment(body) => "/*" + body + "*/"
    case TemplateLiteral(body) => "`" + body + "`"
    case StringLiteral(quote, body) => [quote] + body + [quote]
    case RegexLiteral(body) => "/" + body + "/"
  }

  function TailSource(tail: Tail): string {
    match tail
    case Nothing => []
    case OpenLine(body) => "//" + body
    case OpenBlock(body) => "/*" + body
    case OpenTemplate(body) => "`" + body
    case OpenString(quote, body) => [quote] + body
    case OpenRegex(body) => "/" + body
  }

  function SourceText(xs: seq<Lexeme>, tail: Tail): string {
    if xs == [] then TailSource(tail) else Source(xs[0]) + SourceText(xs[1..], tail)
  }

  function Blanks(body: string): string {
    seq(|body|, i requires 0 <= i < |body| => Blanked(body[i]))
  }

  /** A template body is blanked too, but an escaped break becomes a line feed. */
  function TemplateBlanks(body: string): string {
    if body == [] then []
    else if body[0] == '\\' && |body| >= 2 then
      [' ', if body[1] == '\r' || body[1] == '\n' then '\n' else ' '] + TemplateBlanks(body[2..])
    else [Blanked(body[0])] + TemplateBlanks(body[1..])
  }

  function Masked(x: Lexeme): string {
    match x
    case Plain(c) => [c]
    case LineComment(body, end) => "  " + Blanks(body) + [end]
    case BlockComment(body) => "  " + Blanks(body) + "  "
    case TemplateLiteral(body) => " " + TemplateBlanks(body) + " "
    case StringLiteral(quote, body) => Source(x)
    case RegexLiteral(body) => Source(x)
  }

  function TailMasked(tail: Tail): string {
    match tail
    case Nothing => []
    case OpenLine(body) => "  " + Blanks(body)
    case OpenBlock(body) => "  " + Blanks(body)
    case OpenTemplate(body) => " " + TemplateBlanks(body)
    case OpenString(_, _) => TailSource(tail)
    case OpenRegex(_) => TailSource(tail)
  }

  function MaskedText(xs: seq<Lexeme>, tail: Tail): string {
    if xs == [] then TailMasked(tail) else Masked(xs[0]) + MaskedText(xs[1..], tail)
  }

  /** A body in which the closing mark only occurs behind a backslash. */
  ghost predicate EscapedBody(close: char, body: string) {
    body == [] ||
    if body[0] == '\\' then |body| >= 2 && EscapedBody(close, body[2..])
    else body[0] != close && EscapedBody(close, body[1..])
  }

  /** A regular expression body: a slash only behind a backslash or inside a class. */
  ghost predicate RegexBody(inClass: bool, body: string)
    decreases |body|
  {
    if body == [] then !inClass
    else if body[0] == '\\' then |body| >= 2 && RegexBody(inClass, body[2..])
    else if body[0] == '[' then RegexBody(true, body[1..])
    else if body[0] == ']' then RegexBody(false, body[1..])
    else (body[0] == '/' ==> inClass) && RegexBody(inClass, body[1..])
  }

  ghost predicate BlockBody(body: string) {
    forall k :: 0 <= k < |body| ==> !(body[k] == '*' && (body + "*/")[k + 1] == '/')
  }

  /** The lexeme can stand after `output` and before `rest`: its delimiters are where the
      grammar wants them, and a slash means what its surroundings say. */
  ghost predicate Fits(cc: Classes, output: string, x: Lexeme, rest: string) {
    match x
    case Plain(c) =>
      && c != '\'' && c != '"' && c != '`'
      && (c == '/' ==> !(rest != [] && (rest[0] == '/' || rest[0] == '*')) && !RegexCanStart(cc, output))
    case LineComment(body, end) => EndsLine(end) && forall c :: c in body ==> !EndsLine(c)
    case BlockComment(body) => BlockBody(body)
    case TemplateLiteral(body) => EscapedBody('`', body)
    case StringLiteral(quote, body) => (quote == '\'' || quote == '"') && EscapedBody(quote, body)
    case RegexLiteral(body) =>
      && RegexCanStart(cc, output)
      && RegexBody(false, body)
      && (body + "/")[0] != '/' && (body + "/")[0] != '*'
  }

  /** A body without its closing mark; a backslash at its very end escapes nothing. */
  ghost predicate OpenBody(close: char, body: string) {
    |body| == 0 ||
    if body[0] == '\\' then |body| == 1 || OpenBody(close, body[2..])
    else body[0] != close && OpenBody(close, body[1..])
  }

  ghost predicate OpenRegexBody(inClass: bool, body: string)
    decreases |body|
  {
    if |body| == 0 then true
    else if body[0] == '\\' then |body| == 1 || OpenRegexBody(inClass, body[2..])
    else if body[0] == '[' then OpenRegexBody(true, body[1..])
    else if body[0] == ']' then OpenRegexBody(false, body[1..])
    else (body[0] == '/' ==> inClass) && OpenRegexBody(inClass, body[1..])
  }

  ghost predicate OpenBlockBody(body: string) {
    forall k :: 0 <= k < |body| - 1 ==> !(body[k] == '*' && body[k + 1] == '/')
  }

  ghost predicate TailFits(cc: Classes, output: string, tail: Tail) {
    match tail
    case Nothing => true
    case OpenLine(body) => forall c :: c in body ==> !EndsLine(c)
    case OpenBlock(body) => OpenBlockBody(body)
    case OpenTemplate(body) => OpenBody('`', body)
    case OpenString(quote, body) => (quote == '\'' || quote == '"') && OpenBody(quote, body)
    case OpenRegex(body) =>
      && RegexCanStart(cc, output)
      && OpenRegexBody(false, body)
      && (body != [] ==> body[0] != '/' && body[0] != '*')
  }

  ghost predicate Lexes(cc: Classes, output: string, xs: seq<Lexeme>, tail: Tail)
    decreases |xs|
  {
    if xs == [] then TailFits(cc, output, tail)
    else
      && Fits(cc, output, xs[0], SourceText(xs[1..], tail))
      && Lexes(cc, output + Masked(xs[0]), xs[1..], tail)
  }

  lemma ConcatAssociates(a: string, b: string, c: string)
    ensures (a + b) + c == a + (b + c)
  {
  }

  /** The characters of `piece` are the next ones to read. */
  ghost predicate Ahead(text: string, output: string, piece: string) {
    && |output| + |piece| <= |text|
    && forall k :: 0 <= k < |piece| ==> text[|output| + k] == piece[k]
  }

  lemma AheadRest(text: string, output: string, written: string, piece: string, n: nat)
    requires Ahead(text, output, piece)
    requires |written| == n <= |piece|
    ensures Ahead(text, output + written, piece[n..])
  {
    forall k | 0 <= k < |piece[n..]|
      ensures text[|output + written| + k] == piece[n..][k]
    {
      assert text[|output| + (n + k)] == piece[n + k];
    }
  }

  lemma {:induction false} QuotedRun(cc: Classes, text: string, output: string, quote: char, body: string)
    requires quote != '\\' && EscapedBody(quote, body)
    requires Ahead(text, output, body + [quote])
    ensures Mask(cc, text, output, Quoted(quote)) == Mask(cc, text, output + (body + [quote]), Normal)
    decreases |body|
  {
    var piece := body + [quote];
    assert text[|output|] == piece[0];
    if body == [] {
      assert piece == [quote];
    } else {
      var n := if body[0] == '\\' then 2 else 1;
      assert n == 2 ==> text[|output| + 1] == piece[1];
      assert piece[..n] == if n == 2 then [piece[0], piece[1]] else [piece[0]];
      AheadRest(text, output, piece[..n], piece, n);
      assert piece[n..] == body[n..] + [quote];
      QuotedRun(cc, text, output + piece[..n], quote, body[n..]);
      assert piece == piece[..n] + piece[n..];
      ConcatAssociates(output, piece[..n], piece[n..]);
    }
  }

  lemma {:induction false} RegexRun(cc: Classes, text: string, output: string, inClass: bool, body: string)
    requires RegexBody(inClass, body)
    requires Ahead(text, output, body + "/")
    ensures Mask(cc, text, output, Regex(inClass)) == Mask(cc, text, output + (body + "/"), Normal)
    decreases |body|
  {
    var piece := body + "/";
    assert text[|output|] == piece[0];
    if body == [] {
      assert piece == "/";
    } else {
      var n := if body[0] == '\\' then 2 else 1;
      assert n == 2 ==> text[|output| + 1] == piece[1];
      var then' := if body[0] == '[' then true else if body[0] == ']' then false else inClass;
      assert piece[..n] == if n == 2 then [piece[0], piece[1]] else [piece[0]];
      AheadRest(text, output, piece[..n], piece, n);
      assert piece[n..] == body[n..] + "/";
      RegexRun(cc, text, output + piece[..n], then', body[n..]);
      assert piece == piece[..n] + piece[n..];
      ConcatAssociates(output, piece[..n], piece[n..]);
    }
  }

  lemma {:induction false} TemplateRun(cc: Classes, text: string, output: string, body: string)
    requires EscapedBody('`', body)
    requires Ahead(text, output, body + "`")
    ensures |TemplateBlanks(body)| == |body|
    ensures Mask(cc, text, output, Template) == Mask(cc, text, output + (TemplateBlanks(body) + " "), Normal)
    decreases |body|
  {
    var piece := body + "`";
    assert text[|output|] == piece[0];
    if body == [] {
      assert TemplateBlanks(body) + " " == " ";
    } else {
      var n := if body[0] == '\\' then 2 else 1;
      assert n == 2 ==> text[|output| + 1] == piece[1];
      var written := Turn(cc, text, output, Template).0;
      AheadRest(text, output, written, piece, n);
      assert piece[n..] == body[n..] + "`";
      TemplateRun(cc, text, output + written, body[n..]);
      ConcatAssociates(written, TemplateBlanks(body[n..]), " ");
      ConcatAssociates(output, written, TemplateBlanks(body[n..]) + " ");
    }
  }

  lemma {:induction false} LineRun(cc: Classes, text: string, output: string, body: string, end: char)
    requires EndsLine(end) && forall c :: c in body ==> !EndsLine(c)
    requires Ahead(text, output, body + [end])
    ensures Mask(cc, text, output, Line) == Mask(cc, text, output + (Blanks(body) + [end]), Normal)
    decreases |body|
  {
    var piece := body + [end];
    assert text[|output|] == piece[0];
    if body == [] {
      assert Blanks(body) + [end] == [end];
    } else {
      AheadRest(text, output, [' '], piece, 1);
      assert piece[1..] == body[1..] + [end];
      assert !EndsLine(body[0]);
      LineRun(cc, text, output + [' '], body[1..], end);
      assert output + (Blanks(body) + [end]) == output + [' '] + (Blanks(body[1..]) + [end]);
    }
  }

  lemma {:induction false} BlockRun(cc: Classes, text: string, output: string, body: string)
    requires BlockBody(body)
    requires Ahead(text, output, body + "*/")
    ensures Mask(cc, text, output, Block) == Mask(cc, text, output + (Blanks(body) + "  "), Normal)
    decreases |body|
  {
    var piece := body + "*/";
    assert text[|output|] == piece[0] && text[|output| + 1] == piece[1];
    if body == [] {
      assert Blanks(body) + "  " == "  ";
    } else {
      var written := [Blanked(body[0])];
      AheadRest(text, output, written, piece, 1);
      assert piece[1..] == body[1..] + "*/";
      assert BlockBody(body[1..]) by {
        forall k | 0 <= k < |body[1..]|
          ensures !(body[1..][k] == '*' && (body[1..] + "*/")[k + 1] == '/')
        {
          assert !(body[k + 1] == '*' && piece[k + 2] == '/');
        }
      }
      BlockRun(cc, text, output + written, body[1..]);
      assert output + (Blanks(body) + "  ") == output + written + (Blanks(body[1..]) + "  ");
    }
  }

  lemma LineCommentRun(cc: Classes, text: string, output: string, body: string, end: char)
    requires EndsLine(end) && forall c :: c in body ==> !EndsLine(c)
    requires Ahead(text, output, "//" + body + [end])
    ensures Mask(cc, text, output, Normal) == Mask(cc, text, output + ("  " + Blanks(body) + [end]), Normal)
  {
    var piece := "//" + body + [end];
    assert text[|output|] == piece[0] && text[|output| + 1] == piece[1];
    AheadRest(text, output, "  ", piece, 2);
    assert piece[2..] == body + [end];
    LineRun(cc, text, output + "  ", body, end);
    assert output + ("  " + Blanks(body) + [end]) == output + "  " + (Blanks(body) + [end]);
  }

  lemma BlockCommentRun(cc: Classes, text: string, output: string, body: string)
    requires BlockBody(body)
    requires Ahead(text, output, "/*" + body + "*/")
    ensures Mask(cc, text, output, Normal) == Mask(cc, text, output + ("  " + Blanks(body) + "  "), Normal)
  {
    var piece := "/*" + body + "*/";
    assert text[|output|] == piece[0] && text[|output| + 1] == piece[1];
    AheadRest(text, output, "  ", piece, 2);
    assert piece[2..] == body + "*/";
    BlockRun(cc, text, output + "  ", body);
    assert output + ("  " + Blanks(body) + "  ") == output + "  " + (Blanks(body) + "  ");
  }

  lemma TemplateLiteralRun(cc: Classes, text: string, output: string, body: string)
    requires EscapedBody('`', body) && Ahead(text, output, "`" + body + "`")
    ensures |TemplateBlanks(body)| == |body|
    ensures Mask(cc, text, output, Normal) == Mask(cc, text, output + (" " + TemplateBlanks(body) + " "), Normal)
  {
    var piece := "`" + body + "`";
    assert text[|output|] == piece[0];
    AheadRest(text, output, " ", piece, 1);
    assert piece[1..] == body + "`";
    TemplateRun(cc, text, output + " ", body);
    assert output + (" " + TemplateBlanks(body) + " ") == output + " " + (TemplateBlanks(body) + " ");
  }

  lemma StringLiteralRun(cc: Classes, text: string, output: string, quote: char, body: string)
    requires quote == '\'' || quote == '"'
    requires EscapedBody(quote, body) && Ahead(text, output, [quote] + body + [quote])
    ensures Mask(cc, text, output, Normal) == Mask(cc, text, output + ([quote] + body + [quote]), Normal)
  {
    var piece := [quote] + body + [quote];
    assert text[|output|] == piece[0];
    AheadRest(text, output, [quote], piece, 1);
    assert piece[1..] == body + [quote];
    QuotedRun(cc, text, output + [quote], quote, body);
    assert output + piece == output + [quote] + (body + [quote]);
  }

  lemma RegexLiteralRun(cc: Classes, text: string, output: string, body: string)
    requires RegexBody(false, body) && RegexCanStart(cc, output)
    requires (body + "/")[0] != '/' && (body + "/")[0] != '*'
    requires Ahead(text, output, "/" + body + "/")
    ensures Mask(cc, text, output, Normal) == Mask(cc, text, output + ("/" + body + "/"), Normal)
  {
    RegexStartExact(cc, output);
    var piece := "/" + body + "/";
    assert text[|output|] == piece[0] && text[|output| + 1] == piece[1] == (body + "/")[0];
    AheadRest(text, output, "/", piece, 1);
    assert piece[1..] == body + "/";
    RegexRun(cc, text, output + "/", false, body);
    assert output + piece == output + "/" + (body + "/");
  }

  lemma PlainRun(cc: Classes, text: string, output: string, c: char, rest: string)
    requires Ahead(text, output, [c] + rest) && |text| == |output| + 1 + |rest|
    requires Fits(cc, output, Plain(c), rest)
    ensures Mask(cc, text, output, Normal) == Mask(cc, text, output + [c], Normal)
  {
    RegexStartExact(cc, output);
    assert text[|output|] == ([c] + rest)[0];
    if rest != [] {
      assert text[|output| + 1] == ([c] + rest)[1];
    }
  }

  lemma LexemeRun(cc: Classes, text: string, output: string, x: Lexeme, rest: string)
    requires Ahead(text, output, Source(x) + rest) && |text| == |output| + |Source(x) + rest|
    requires Fits(cc, output, x, rest)
    ensures |Masked(x)| == |Source(x)|
    ensures Mask(cc, text, output, Normal) == Mask(cc, text, output + Masked(x), Normal)
  {
    assert Ahead(text, output, Source(x)) by {
      assert forall k :: 0 <= k < |Source(x)| ==> (Source(x) + rest)[k] == Source(x)[k];
    }
    match x {
      case Plain(c) => PlainRun(cc, text, output, c, rest);
      case LineComment(body, end) => LineCommentRun(cc, text, output, body, end);
      case BlockComment(body) => BlockCommentRun(cc, text, output, body);
      case TemplateLiteral(body) => TemplateLiteralRun(cc, text, output, body);
      case StringLiteral(quote, body) => StringLiteralRun(cc, text, output, quote, body);
      case RegexLiteral(body) => RegexLiteralRun(cc, text, output, body);
    }
  }

  // ----- What is left open

  ghost predicate AtEnd(text: string, output: string, piece: string) {
    Ahead(text, output, piece) && |text| == |output| + |piece|
  }

  lemma AtEndRest(text: string, output: string, written: string, piece: string, n: nat)
    requires AtEnd(text, output, piece) && |written| == n <= |piece|
    ensures AtEnd(text, output + written, piece[n..])
  {
    AheadRest(text, output, written, piece, n);
  }

  lemma {:induction false} OpenQuotedRun(cc: Classes, text: string, output: string, quote: char, body: string)
    requires quote != '\\' && OpenBody(quote, body) && AtEnd(text, output, body)
    ensures Mask(cc, text, output, Quoted(quote)) == output + body
    decreases |body|
  {
    if body != [] {
      assert text[|output|] == body[0];
      var n := if body[0] == '\\' && |body| > 1 then 2 else 1;
      assert n == 2 ==> text[|output| + 1] == body[1];
      assert body[..n] == if n == 2 then [body[0], body[1]] else [body[0]];
      AtEndRest(text, output, body[..n], body, n);
      OpenQuotedRun(cc, text, output + body[..n], quote, body[n..]);
      assert output + body == output + body[..n] + body[n..];
    }
  }

  lemma {:induction false} OpenRegexRun(cc: Classes, text: string, output: string, inClass: bool, body: string)
    requires OpenRegexBody(inClass, body) && AtEnd(text, output, body)
    ensures Mask(cc, text, output, Regex(inClass)) == output + body
    decreases |body|
  {
    if body != [] {
      assert text[|output|] == body[0];
      var n := if body[0] == '\\' && |body| > 1 then 2 else 1;
      assert n == 2 ==> text[|output| + 1] == body[1];
      var then' := if body[0] == '[' then true else if body[0] == ']' then false else inClass;
      assert body[..n] == if n == 2 then [body[0], body[1]] else [body[0]];
      AtEndRest(text, output, body[..n], body, n);
      OpenRegexRun(cc, text, output + body[..n], then', body[n..]);
      assert output + body == output + body[..n] + body[n..];
    }
  }

  lemma {:induction false} OpenTemplateRun(cc: Classes, text: string, output: string, body: string)
    requires OpenBody('`', body) && AtEnd(text, output, body)
    ensures Mask(cc, text, output, Template) == output + TemplateBlanks(body)
    decreases |body|
  {
    if body != [] {
      assert text[|output|] == body[0];
      var n := if body[0] == '\\' && |body| > 1 then 2 else 1;
      assert n == 2 ==> text[|output| + 1] == body[1];
      var written := Turn(cc, text, output, Template).0;
      AtEndRest(text, output, written, body, n);
      OpenTemplateRun(cc, text, output + written, body[n..]);
      ConcatAssociates(output, written, TemplateBlanks(body[n..]));
    }
  }

  lemma {:induction false} OpenLineRun(cc: Classes, text: string, output: string, body: string)
    requires (forall c :: c in body ==> !EndsLine(c)) && AtEnd(text, output, body)
    ensures Mask(cc, text, output, Line) == output + Blanks(body)
    decreases |body|
  {
    if body != [] {
      assert text[|output|] == body[0] && body[0] in body;
      AtEndRest(text, output, " ", body, 1);
      OpenLineRun(cc, text, output + " ", body[1..]);
      assert output + Blanks(body) == output + " " + Blanks(body[1..]);
    }
  }

  lemma {:induction false} OpenBlockRun(cc: Classes, text: string, output: string, body: string)
    requires OpenBlockBody(body) && AtEnd(text, output, body)
    ensures Mask(cc, text, output, Block) == output + Blanks(body)
    decreases |body|
  {
    if body != [] {
      assert text[|output|] == body[0] && (|body| > 1 ==> text[|output| + 1] == body[1]);
      var written := [Blanked(body[0])];
      AtEndRest(text, output, written, body, 1);
      OpenBlockRun(cc, text, output + written, body[1..]);
      assert output + Blanks(body) == output + written + Blanks(body[1..]);
    }
  }

  lemma OpenLineCommentRun(cc: Classes, text: string, output: string, body: string)
    requires (forall c :: c in body ==> !EndsLine(c)) && AtEnd(text, output, "//" + body)
    ensures Mask(cc, text, output, Normal) == output + ("  " + Blanks(body))
  {
    var piece := "//" + body;
    assert text[|output|] == piece[0] && text[|output| + 1] == piece[1];
    AtEndRest(text, output, "  ", piece, 2);
    assert piece[2..] == body;
    OpenLineRun(cc, text, output + "  ", body);
    ConcatAssociates(output, "  ", Blanks(body));
  }

  lemma OpenBlockCommentRun(cc: Classes, text: string, output: string, body: string)
    requires OpenBlockBody(body) && AtEnd(text, output, "/*" + body)
    ensures Mask(cc, text, output, Normal) == output + ("  " + Blanks(body))
  {
    var piece := "/*" + body;
    assert text[|output|] == piece[0] && text[|output| + 1] == piece[1];
    AtEndRest(text, output, "  ", piece, 2);
    assert piece[2..] == body;
    OpenBlockRun(cc, text, output + "  ", body);
    ConcatAssociates(output, "  ", Blanks(body));
  }

  lemma OpenTemplateLiteralRun(cc: Classes, text: string, output: string, body: string)
    requires OpenBody('`', body) && AtEnd(text, output, "`" + body)
    ensures Mask(cc, text, output, Normal) == output + (" " + TemplateBlanks(body))
  {
    var piece := "`" + body;
    assert text[|output|] == piece[0];
    AtEndRest(text, output, " ", piece, 1);
    assert piece[1..] == body;
    OpenTemplateRun(cc, text, output + " ", body);
    ConcatAssociates(output, " ", TemplateBlanks(body));
  }

  lemma OpenStringRun(cc: Classes, text: string, output: string, quote: char, body: string)
    requires (quote == '\'' || quote == '"') && OpenBody(quote, body) && AtEnd(text, output, [quote] + body)
    ensures Mask(cc, text, output, Normal) == output + ([quote] + body)
  {
    var piece := [quote] + body;
    assert text[|output|] == piece[0];
    AtEndRest(text, output, [quote], piece, 1);
    assert piece[1..] == body;
    OpenQuotedRun(cc, text, output + [quote], quote, body);
    ConcatAssociates(output, [quote], body);
  }

  lemma OpenRegexLiteralRun(cc: Classes, text: string, output: string, body: string)
    requires OpenRegexBody(false, body) && AtEnd(text, output, "/" + body)
    requires RegexCanStart(cc, output) && (body != [] ==> body[0] != '/' && body[0] != '*')
    ensures Mask(cc, text, output, Normal) == output + ("/" + body)
  {
    RegexStartExact(cc, output);
    var piece := "/" + body;
    assert text[|output|] == piece[0] && (body != [] ==> text[|output| + 1] == piece[1]);
    AtEndRest(text, output, "/", piece, 1);
    assert piece[1..] == body;
    OpenRegexRun(cc, text, output + "/", false, body);
    ConcatAssociates(output, "/", body);
  }

  lemma TailRun(cc: Classes, text: string, output: string, tail: Tail)
    requires AtEnd(text, output, TailSource(tail)) && TailFits(cc, output, tail)
    ensures Mask(cc, text, output, Normal) == output + TailMasked(tail)
  {
    match tail {
      case Nothing => assert output + [] == output;
      case OpenLine(body) => OpenLineCommentRun(cc, text, output, body);
      case OpenBlock(body) => OpenBlockCommentRun(cc, text, output, body);
      case OpenTemplate(body) => OpenTemplateLiteralRun(cc, text, output, body);
      case OpenString(quote, body) => OpenStringRun(cc, text, output, quote, body);
      case OpenRegex(body) => OpenRegexLiteralRun(cc, text, output, body);
    }
  }

  // ----- A text by its lexemes

  lemma FirstLexeme(cc: Classes, text: string, output: string, xs: seq<Lexeme>, tail: Tail)
    requires xs != [] && AtEnd(text, output, SourceText(xs, tail))
    requires Fits(cc, output, xs[0], SourceText(xs[1..], tail))
    ensures var next := output + Masked(xs[0]);
            && AtEnd(text, next, SourceText(xs[1..], tail))
            && Mask(cc, text, output, Normal) == Mask(cc, text, next, Normal)
  {
    var source, rest := Source(xs[0]), SourceText(xs[1..], tail);
    LexemeRun(cc, text, output, xs[0], rest);
    AheadRest(text, output, Masked(xs[0]), source + rest, |source|);
    assert (source + rest)[|source|..] == rest;
  }

  lemma {:induction false} StripByLexemesFrom(
    cc: Classes, text: string, output: string, xs: seq<Lexeme>, tail: Tail)
    requires AtEnd(text, output, SourceText(xs, tail)) && Lexes(cc, output, xs, tail)
    ensures Mask(cc, text, output, Normal) == output + MaskedText(xs, tail)
    decreases |xs|
  {
    if xs == [] {
      TailRun(cc, text, output, tail);
    } else {
      FirstLexeme(cc, text, output, xs, tail);
      StripByLexemesFrom(cc, text, output + Masked(xs[0]), xs[1..], tail);
      ConcatAssociates(output, Masked(xs[0]), MaskedText(xs[1..], tail));
    }
  }

  /** The lexer refines the grammar: however a text splits into lexemes, exactly the
      comments and templates are blanked, open ones too, and everything else is copied. */
  lemma StripByLexemes(cc: Classes, xs: seq<Lexeme>, tail: Tail)
    requires Lexes(cc, [], xs, tail)
    ensures StripJsComments(cc, SourceText(xs, tail)) == MaskedText(xs, tail)
  {
    StripByLexemesFrom(cc, SourceText(xs, tail), [], xs, tail);
    assert [] + MaskedText(xs, tail) == MaskedText(xs, tail);
  }

  // ----- Every text has its lexemes

  /** Where a body that is closed by a mark ends. */
  lemma {:induction false} BodyEnds(close: char, t: string) returns (n: nat)
    requires close != '\\'
    ensures n <= |t|
    ensures if n < |t| then t[n] == close && EscapedBody(close, t[..n]) else OpenBody(close, t)
    decreases |t|
  {
    if |t| == 0 || t[0] == close {
      n := 0;
    } else if t[0] == '\\' && |t| == 1 {
      n := 1;
    } else {
      var k := if t[0] == '\\' then 2 else 1;
      var m := BodyEnds(close, t[k..]);
      n := m + k;
      assert n < |t| ==> t[..n][k..] == t[k..][..m];
    }
  }

  lemma {:induction false} RegexEnds(inClass: bool, t: string) returns (n: nat)
    ensures n <= |t|
    ensures if n < |t| then t[n] == '/' && RegexBody(inClass, t[..n]) else OpenRegexBody(inClass, t)
    decreases |t|
  {
    if |t| == 0 || (t[0] == '/' && !inClass) {
      n := 0;
    } else if t[0] == '\\' && |t| == 1 {
      n := 1;
    } else {
      var k := if t[0] == '\\' then 2 else 1;
      var m := RegexEnds(if t[0] == '[' then true else if t[0] == ']' then false else inClass, t[k..]);
      n := m + k;
      assert n < |t| ==> t[..n][k..] == t[k..][..m];
    }
  }

  lemma {:induction false} LineEnds(t: string) returns (n: nat)
    ensures n <= |t| && (forall c :: c in t[..n] ==> !EndsLine(c)) && (n < |t| ==> EndsLine(t[n]))
  {
    if |t| == 0 || EndsLine(t[0]) {
      n := 0;
    } else {
      var m := LineEnds(t[1..]);
      n := m + 1;
      assert t[..n] == [t[0]] + t[1..][..m];
    }
  }

  lemma {:induction false} BlockEnds(t: string) returns (n: nat)
    ensures n <= |t|
    ensures if n < |t| then n + 1 < |t| && t[n] == '*' && t[n + 1] == '/' && OpenBlockBody(t[..n + 1])
            else OpenBlockBody(t)
  {
    if |t| < 2 {
      n := |t|;
    } else if t[0] == '*' && t[1] == '/' {
      n := 0;
    } else {
      var m := BlockEnds(t[1..]);
      n := m + 1;
      if n < |t| {
        var shorter := t[1..][..m + 1];
        assert t[..n + 1] == [t[0]] + shorter;
      } else {
        assert forall k :: 0 < k < |t| ==> t[k] == t[1..][k - 1];
      }
    }
  }

  lemma ClosedBlock(t: string, n: nat)
    requires n + 1 < |t| && t[n] == '*' && t[n + 1] == '/' && OpenBlockBody(t[..n + 1])
    ensures BlockBody(t[..n])
  {
    var body := t[..n];
    forall k | 0 <= k < n ensures !(body[k] == '*' && (body + "*/")[k + 1] == '/') {
      assert (body + "*/")[k + 1] == t[k + 1];
      assert t[..n + 1][k] == t[k] && (k + 1 <= n ==> t[..n + 1][k + 1] == t[k + 1]);
    }
  }

  /** What a text starts with: a lexeme and what follows it, or something it leaves open. */
  datatype Piece = Closed(x: Lexeme, rest: string) | Open(tail: Tail)

  ghost predicate Starts(cc: Classes, output: string, t: string, p: Piece) {
    match p
    case Closed(x, rest) => t == Source(x) + rest && Fits(cc, output, x, rest)
    case Open(tail) => t == TailSource(tail) && TailFits(cc, output, tail)
  }

  lemma LinePiece(cc: Classes, output: string, t: string) returns (p: Piece)
    requires |t| > 1 && t[0] == '/' && t[1] == '/'
    ensures Starts(cc, output, t, p)
  {
    var n := LineEnds(t[2..]);
    var body := t[2..][..n];
    if n < |t[2..]| {
      p := Closed(LineComment(body, t[2 + n]), t[3 + n..]);
      assert t == "//" + body + [t[2 + n]] + t[3 + n..];
    } else {
      p := Open(OpenLine(body));
      assert t == "//" + body;
    }
  }

  lemma BlockPiece(cc: Classes, output: string, t: string) returns (p: Piece)
    requires |t| > 1 && t[0] == '/' && t[1] == '*'
    ensures Starts(cc, output, t, p)
  {
    var n := BlockEnds(t[2..]);
    var body := t[2..][..n];
    if n < |t[2..]| {
      ClosedBlock(t[2..], n);
      p := Closed(BlockComment(body), t[4 + n..]);
      assert t == "/*" + body + "*/" + t[4 + n..];
    } else {
      p := Open(OpenBlock(body));
      assert t == "/*" + body && body == t[2..];
    }
  }

  lemma RegexPiece(cc: Classes, output: string, t: string) returns (p: Piece)
    requires t != [] && t[0] == '/' && RegexCanStart(cc, output)
    requires |t| > 1 ==> t[1] != '/' && t[1] != '*'
    ensures Starts(cc, output, t, p)
  {
    var n := RegexEnds(false, t[1..]);
    var body := t[1..][..n];
    if n < |t[1..]| {
      p := Closed(RegexLiteral(body), t[2 + n..]);
      assert t == "/" + body + "/" + t[2 + n..];
      assert (body + "/")[0] == t[1];
    } else {
      p := Open(OpenRegex(body));
      assert t == "/" + body && body == t[1..];
    }
  }

  lemma QuotedPiece(cc: Classes, output: string, t: string) returns (p: Piece)
    requires t != [] && (t[0] == '`' || t[0] == '\'' || t[0] == '"')
    ensures Starts(cc, output, t, p)
  {
    var quote := t[0];
    var n := BodyEnds(quote, t[1..]);
    var body := t[1..][..n];
    if n < |t[1..]| {
      p := Closed(if quote == '`' then TemplateLiteral(body) else StringLiteral(quote, body), t[2 + n..]);
      assert t == [quote] + body + [quote] + t[2 + n..];
    } else {
      p := Open(if quote == '`' then OpenTemplate(body) else OpenString(quote, body));
      assert t == [quote] + body && body == t[1..];
    }
  }

  lemma FirstPiece(cc: Classes, output: string, t: string) returns (p: Piece)
    ensures Starts(cc, output, t, p)
  {
    if t == [] {
      p := Open(Nothing);
    } else if t[0] == '/' && |t| > 1 && t[1] == '/' {
      p := LinePiece(cc, output, t);
    } else if t[0] == '/' && |t| > 1 && t[1] == '*' {
      p := BlockPiece(cc, output, t);
    } else if t[0] == '/' && RegexCanStart(cc, output) {
      p := RegexPiece(cc, output, t);
    } else if t[0] == '`' || t[0] == '\'' || t[0] == '"' {
      p := QuotedPiece(cc, output, t);
    } else {
      p := Closed(Plain(t[0]), t[1..]);
      assert t == [t[0]] + t[1..];
    }
  }

  /** Every text is a row of lexemes and what it leaves open, so that the grammar says what
      becomes of every text. */
  lemma {:induction false} EveryTextLexes(cc: Classes, output: string, t: string)
    returns (xs: seq<Lexeme>, tail: Tail)
    ensures t == SourceText(xs, tail) && Lexes(cc, output, xs, tail)
    decreases |t|
  {
    var p := FirstPiece(cc, output, t);
    match p {
      case Open(left) =>
        xs, tail := [], left;
      case Closed(x, rest) =>
        assert |Source(x)| > 0;
        xs, tail := EveryTextLexes(cc, output + Masked(x), rest);
        xs := [x] + xs;
    }
  }
}
