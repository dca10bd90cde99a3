/**
 The JSON-with-comments stripper: one left-to-right scan that copies string literals
 verbatim, replaces a line comment by a newline and drops a block comment.

 `Strip` reads the text as a suffix still to be scanned; `StripJsonComments` is the
 scan as the source runs it, over an index and a growing output.
 */
module JsonComments {

  /** Where the scan stands: between literals, or inside one opened by `quote`. */
  datatype Mode = Code | Literal(quote: char, escaped: bool)

  predicate IsQuote(c: char) {
    c == '\'' || c == '"'
  }

  predicate OpensLine(t: string) {
    |t| >= 2 && t[0] == '/' && t[1] == '/'
  }

  predicate OpensBlock(t: string) {
    |t| >= 2 && t[0] == '/' && t[1] == '*'
  }

  /** The mode after reading one character of a literal. */
  function Advance(m: Mode, c: char): Mode
    requires m.Literal?
  {
    if m.escaped then m.(escaped := false)
    else if c == '\\' then m.(escaped := true)
    else if c == m.quote then Code
    else m
  }

  /** The rest of the text from the first newline on (empty when there is none). */
  function AfterLine(t: string): (r: string)
    ensures |r| <= |t|
    ensures r == [] || r[0] == '\n'
  {
    if t == [] || t[0] == '\n' then t else AfterLine(t[1..])
  }

  /** The rest of the text past the first closing mark (empty when there is none). */
  function AfterBlock(t: string): (r: string)
    ensures |r| <= |t|
  {
    if |t| < 2 then []
    else if t[0] == '*' && t[1] == '/' then t[2..]
    else AfterBlock(t[1..])
  }

  function Strip(m: Mode, t: string): string
    decreases |t|
  {
    if t == [] then []
    else if m.Literal? then [t[0]] + Strip(Advance(m, t[0]), t[1..])
    else if IsQuote(t[0]) then [t[0]] + Strip(Literal(t[0], false), t[1..])
    else if OpensLine(t) then ['\n'] + Strip(Code, AfterLine(t))
    else if OpensBlock(t) then Strip(Code, AfterBlock(t[2..]))
    else [t[0]] + Strip(Code, t[1..])
  }

  // ----- What the output means

  /** No comment opener stands outside a string literal. */
  ghost predicate NoComments(m: Mode, t: string)
    decreases |t|
  {
    t == [] ||
    if m.Literal? then NoComments(Advance(m, t[0]), t[1..])
    else if IsQuote(t[0]) then NoComments(Literal(t[0], false), t[1..])
    else !OpensLine(t) && !OpensBlock(t) && NoComments(Code, t[1..])
  }

  /** The string literals of a text in order, quotes included; `current` is the part of
      an open literal read so far.  An unterminated literal runs to the end. */
  ghost function Literals(m: Mode, current: string, t: string): seq<string>
    decreases |t|
  {
    if t == [] then (if m.Literal? then [current] else [])
    else if m.Literal? then
      var next := Advance(m, t[0]);
      if next.Code? then [current + [t[0]]] + Literals(Code, [], t[1..])
      else Literals(next, current + [t[0]], t[1..])
    else if IsQuote(t[0]) then Literals(Literal(t[0], false), [t[0]], t[1..])
    else if OpensLine(t) then Literals(Code, [], AfterLine(t))
    else if OpensBlock(t) then Literals(Code, [], AfterBlock(t[2..]))
    else Literals(Code, [], t[1..])
  }

  /** Text without a comment comes back unchanged, and only such text does... */
  lemma {:induction false} StripKeepsCommentFree(m: Mode, t: string)
    requires NoComments(m, t)
    ensures Strip(m, t) == t
    decreases |t|
  {
    if t != [] {
      assert t == [t[0]] + t[1..];
      if m.Literal? {
        StripKeepsCommentFree(Advance(m, t[0]), t[1..]);
      } else if IsQuote(t[0]) {
        StripKeepsCommentFree(Literal(t[0], false), t[1..]);
      } else {
        StripKeepsCommentFree(Code, t[1..]);
      }
    }
  }

  /** ...because no opener survives outside the literals: dropping a block comment can
      not bring a slash together with a second slash or a star. */
  lemma {:induction false} StripRemovesComments(m: Mode, t: string)
    ensures NoComments(m, Strip(m, t))
    decreases |t|
  {
    if t != [] {
      if m.Literal? {
        StripRemovesComments(Advance(m, t[0]), t[1..]);
        Unfold(m, t[0], Strip(Advance(m, t[0]), t[1..]));
      } else if IsQuote(t[0]) {
        StripRemovesComments(Literal(t[0], false), t[1..]);
        Unfold(m, t[0], Strip(Literal(t[0], false), t[1..]));
      } else if OpensLine(t) {
        StripRemovesComments(Code, AfterLine(t));
        Unfold(m, '\n', Strip(Code, AfterLine(t)));
      } else if OpensBlock(t) {
        StripRemovesComments(Code, AfterBlock(t[2..]));
      } else {
        StripRemovesComments(Code, t[1..]);
        Unfold(m, t[0], Strip(Code, t[1..]));
      }
    }
  }

  lemma Unfold(m: Mode, c: char, rest: string)
    ensures ([c] + rest)[0] == c && ([c] + rest)[1..] == rest
  {
  }

  lemma StripIdempotent(t: string)
    ensures Strip(Code, Strip(Code, t)) == Strip(Code, t)
    ensures Strip(Code, t) == t <==> NoComments(Code, t)
  {
    StripRemovesComments(Code, t);
    StripKeepsCommentFree(Code, Strip(Code, t));
    if NoComments(Code, t) {
      StripKeepsCommentFree(Code, t);
    }
  }

  lemma {:induction false} StripKeepsLiteralsFrom(m: Mode, current: string, t: string)
    ensures Literals(m, current, Strip(m, t)) == Literals(m, current, t)
    decreases |t|
  {
    if t != [] {
      if m.Literal? {
        var next := Advance(m, t[0]);
        Unfold(m, t[0], Strip(next, t[1..]));
        StripKeepsLiteralsFrom(next, if next.Code? then [] else current + [t[0]], t[1..]);
      } else if IsQuote(t[0]) {
        Unfold(m, t[0], Strip(Literal(t[0], false), t[1..]));
        StripKeepsLiteralsFrom(Literal(t[0], false), [t[0]], t[1..]);
      } else if OpensLine(t) {
        Unfold(m, '\n', Strip(Code, AfterLine(t)));
        StripKeepsLiteralsFrom(Code, [], AfterLine(t));
        SkipsPlain('\n', current, Strip(Code, AfterLine(t)));
      } else if OpensBlock(t) {
        StripKeepsLiteralsFrom(Code, [], AfterBlock(t[2..]));
        CurrentUnused(current, Strip(m, t));
      } else {
        StripRemovesComments(m, t);
        Unfold(m, t[0], Strip(Code, t[1..]));
        StripKeepsLiteralsFrom(Code, [], t[1..]);
      }
    }
  }

  lemma SkipsPlain(c: char, current: string, rest: string)
    requires !IsQuote(c) && c != '/'
    ensures Literals(Code, current, [c] + rest) == Literals(Code, [], rest)
  {
    Unfold(Code, c, rest);
  }

  lemma CurrentUnused(current: string, t: string)
    ensures Literals(Code, current, t) == Literals(Code, [], t)
  {
  }

  /** Every string literal is copied verbatim and in order. */
  lemma StripKeepsLiterals(t: string)
    ensures Literals(Code, [], Strip(Code, t)) == Literals(Code, [], t)
  {
    StripKeepsLiteralsFrom(Code, [], t);
  }

  // ----- The grammar

  /** The pieces of a text.  A line comment ends before its newline; a literal or a block
      comment may be left open at the end of the text. */
  datatype Piece =
    | Plain(c: char)
    | Quoted(quote: char, body: string)
    | LineComment(body: string)
    | BlockComment(body: string)
    | OpenQuoted(quote: char, body: string)
    | OpenBlock(body: string)

  function Source(p: Piece): string {
    match p
    case Plain(c) => [c]
    case Quoted(quote, body) => [quote] + (body + [quote])
    case LineComment(body) => "//" + body
    case BlockComment(body) => "/*" + (body + "*/")
    case OpenQuoted(quote, body) => [quote] + body
    case OpenBlock(body) => "/*" + body
  }

  /** What becomes of a piece. */
  function Kept(p: Piece): string {
    match p
    case LineComment(_) => "\n"
    case BlockComment(_) => ""
    case OpenBlock(_) => ""
    case _ => Source(p)
  }

  /** The `k`th character stands behind an odd number of backslashes. */
  ghost predicate IsEscaped(body: string, k: nat)
    requires k <= |body|
  {
    k > 0 && body[k - 1] == '\\' && !IsEscaped(body, k - 1)
  }

  /** A body in which the quote only stands behind a backslash. */
  ghost predicate Contained(quote: char, body: string) {
    (quote == '"' || quote == '\'') && forall k :: 0 <= k < |body| && body[k] == quote ==> IsEscaped(body, k)
  }

  /** The same, as the scan goes by it. */
  ghost predicate StaysInside(quote: char, escaped: bool, body: string)
    decreases |body|
  {
    body == "" ||
    (Advance(Literal(quote, escaped), body[0]).Literal?
     && StaysInside(quote, Advance(Literal(quote, escaped), body[0]).escaped, body[1..]))
  }

  /** Whether a body ends behind a backslash. */
  ghost predicate EndsEscaped(quote: char, escaped: bool, body: string)
    decreases |body|
  {
    if body == "" then escaped else EndsEscaped(quote, !escaped && body[0] == '\\', body[1..])
  }

  /** No closing mark begins in the body of a block comment. */
  ghost predicate NoMark(body: string, rest: string) {
    forall k :: 0 <= k < |body| ==> !(body[k] == '*' && k + 1 < |body + rest| && (body + rest)[k + 1] == '/')
  }

  /** The piece can stand before `rest`. */
  ghost predicate Fits(p: Piece, rest: string) {
    match p
    case Plain(c) =>
      c != '"' && c != '\'' && !(c == '/' && rest != "" && (rest[0] == '/' || rest[0] == '*'))
    case Quoted(quote, body) => Contained(quote, body) && !IsEscaped(body, |body|)
    case LineComment(body) => '\n' !in body && (rest == "" || rest[0] == '\n')
    case BlockComment(body) => NoMark(body, "*/")
    case OpenQuoted(quote, body) => Contained(quote, body) && rest == ""
    case OpenBlock(body) => NoMark(body, "") && rest == ""
  }

  ghost function SourceText(ps: seq<Piece>): string {
    if ps == [] then "" else Source(ps[0]) + SourceText(ps[1..])
  }

  ghost function KeptText(ps: seq<Piece>): string {
    if ps == [] then "" else Kept(ps[0]) + KeptText(ps[1..])
  }

  ghost predicate Splits(ps: seq<Piece>) {
    ps == [] || (Fits(ps[0], SourceText(ps[1..])) && Splits(ps[1..]))
  }

  /** The same as `IsEscaped`, for a body before which a backslash may stand. */
  ghost predicate EscapedFrom(escaped: bool, body: string, k: nat)
    requires k <= |body|
  {
    if k == 0 then escaped else body[k - 1] == '\\' && !EscapedFrom(escaped, body, k - 1)
  }

  lemma {:induction false} EscapedIsFrom(body: string, k: nat)
    requires k <= |body|
    ensures IsEscaped(body, k) <==> EscapedFrom(false, body, k)
  {
    if k > 0 {
      EscapedIsFrom(body, k - 1);
    }
  }

  lemma {:induction false} EscapedTail(escaped: bool, body: string, k: nat)
    requires 0 < k <= |body|
    ensures EscapedFrom(escaped, body, k) <==> EscapedFrom(!escaped && body[0] == '\\', body[1..], k - 1)
  {
    if k > 1 {
      EscapedTail(escaped, body, k - 1);
    } else {
      assert EscapedFrom(escaped, body, 0) <==> escaped;
    }
  }

  lemma {:induction false} InsideFrom(quote: char, escaped: bool, body: string)
    requires quote != '\\'
    ensures StaysInside(quote, escaped, body) <==>
            forall k :: 0 <= k < |body| && body[k] == quote ==> EscapedFrom(escaped, body, k)
    ensures EndsEscaped(quote, escaped, body) <==> EscapedFrom(escaped, body, |body|)
    decreases |body|
  {
    if body != "" {
      var next, tail := !escaped && body[0] == '\\', body[1..];
      InsideFrom(quote, next, tail);
      forall k | 0 < k <= |body| ensures EscapedFrom(escaped, body, k) <==> EscapedFrom(next, tail, k - 1) {
        EscapedTail(escaped, body, k);
      }
      assert EscapedFrom(escaped, body, 0) <==> escaped;
      assert forall k :: 0 <= k < |tail| ==> tail[k] == body[k + 1];
      assert forall k :: 0 < k < |body| ==> body[k] == tail[k - 1];
    }
  }

  lemma ContainedExact(quote: char, body: string)
    requires IsQuote(quote)
    ensures Contained(quote, body) <==> StaysInside(quote, false, body)
    ensures IsEscaped(body, |body|) <==> EndsEscaped(quote, false, body)
  {
    InsideFrom(quote, false, body);
    forall k | 0 <= k <= |body| ensures IsEscaped(body, k) <==> EscapedFrom(false, body, k) {
      EscapedIsFrom(body, k);
    }
  }

  lemma {:induction false} LiteralRun(quote: char, escaped: bool, body: string, rest: string)
    requires StaysInside(quote, escaped, body)
    ensures Strip(Literal(quote, escaped), body + rest)
         == body + Strip(Literal(quote, EndsEscaped(quote, escaped, body)), rest)
    decreases |body|
  {
    if body == "" {
      assert body + rest == rest;
    } else {
      var next := Advance(Literal(quote, escaped), body[0]);
      assert (body + rest)[1..] == body[1..] + rest;
      LiteralRun(quote, next.escaped, body[1..], rest);
      assert body == [body[0]] + body[1..];
    }
  }

  lemma {:induction false} LineRun(body: string, rest: string)
    requires '\n' !in body && (rest == "" || rest[0] == '\n')
    ensures AfterLine(body + rest) == rest
  {
    if body == "" {
      assert body + rest == rest;
    } else {
      assert (body + rest)[1..] == body[1..] + rest;
      LineRun(body[1..], rest);
    }
  }

  lemma {:induction false} BlockRun(body: string, mark: string, rest: string)
    requires NoMark(body, mark) && (mark == "*/" || (mark == "" && rest == ""))
    ensures AfterBlock(body + mark + rest) == rest
  {
    if body == "" {
      assert body + mark + rest == mark + rest;
    } else {
      var tail := body[1..];
      assert (body + mark + rest)[1..] == tail + mark + rest;
      assert forall k :: 0 <= k < |tail| ==> tail[k] == body[k + 1];
      assert tail + mark == (body + mark)[1..];
      BlockRun(tail, mark, rest);
    }
  }

  lemma PieceRun(p: Piece, rest: string)
    requires Fits(p, rest)
    ensures Strip(Code, Source(p) + rest) == Kept(p) + Strip(Code, rest)
  {
    match p
    case Plain(c) =>
      Unfold(Code, c, rest);
    case Quoted(quote, body) =>
      QuotedRun(quote, body, rest);
    case OpenQuoted(quote, body) =>
      OpenQuotedRun(quote, body);
      assert Source(p) + rest == Source(p);
    case LineComment(body) =>
      LineCommentRun(body, rest);
    case BlockComment(body) =>
      BlockCommentRun(body, "*/", rest);
    case OpenBlock(body) =>
      BlockCommentRun(body, "", rest);
      assert body + "" == body;
  }

  lemma QuotedRun(quote: char, body: string, rest: string)
    requires Fits(Quoted(quote, body), rest)
    ensures Strip(Code, [quote] + (body + [quote]) + rest) == [quote] + (body + [quote]) + Strip(Code, rest)
  {
    var tail := [quote] + rest;
    ContainedExact(quote, body);
    assert [quote] + (body + [quote]) + rest == [quote] + (body + tail);
    Unfold(Code, quote, body + tail);
    LiteralRun(quote, false, body, tail);
    Unfold(Literal(quote, false), quote, rest);
    assert Strip(Literal(quote, false), tail) == [quote] + Strip(Code, rest);
    assert [quote] + (body + ([quote] + Strip(Code, rest))) == [quote] + (body + [quote]) + Strip(Code, rest);
  }

  lemma OpenQuotedRun(quote: char, body: string)
    requires Fits(OpenQuoted(quote, body), "")
    ensures Strip(Code, [quote] + body) == [quote] + body
  {
    ContainedExact(quote, body);
    Unfold(Code, quote, body);
    LiteralRun(quote, false, body, "");
    assert body + "" == body;
  }

  lemma LineCommentRun(body: string, rest: string)
    requires Fits(LineComment(body), rest)
    ensures Strip(Code, "//" + body + rest) == "\n" + Strip(Code, rest)
  {
    assert '\n' !in "//" + body;
    LineRun("//" + body, rest);
  }

  lemma BlockCommentRun(body: string, mark: string, rest: string)
    requires NoMark(body, mark) && (mark == "*/" || (mark == "" && rest == ""))
    ensures Strip(Code, "/*" + (body + mark) + rest) == Strip(Code, rest)
  {
    assert ("/*" + (body + mark) + rest)[2..] == body + mark + rest;
    BlockRun(body, mark, rest);
  }

  /** However a text splits into pieces, exactly the comments go: a line comment leaves a
      newline, beside the one that ends it, and a block comment nothing. */
  lemma {:induction false} StripByPieces(ps: seq<Piece>)
    requires Splits(ps)
    ensures Strip(Code, SourceText(ps)) == KeptText(ps)
  {
    if ps != [] {
      PieceRun(ps[0], SourceText(ps[1..]));
      StripByPieces(ps[1..]);
    }
  }

  // Every text splits.

  lemma {:induction false} LiteralEnds(quote: char, escaped: bool, t: string) returns (n: nat)
    ensures n <= |t| && StaysInside(quote, escaped, t[..n])
    ensures n < |t| ==> t[n] == quote && !EndsEscaped(quote, escaped, t[..n])
    decreases |t|
  {
    if t == "" || Advance(Literal(quote, escaped), t[0]).Code? {
      n := 0;
    } else {
      var m := LiteralEnds(quote, Advance(Literal(quote, escaped), t[0]).escaped, t[1..]);
      n := m + 1;
      assert t[..n][1..] == t[1..][..m];
    }
  }

  lemma {:induction false} LineEnds(t: string) returns (n: nat)
    ensures n <= |t| && '\n' !in t[..n] && (n < |t| ==> t[n] == '\n')
  {
    if t == "" || t[0] == '\n' {
      n := 0;
    } else {
      var m := LineEnds(t[1..]);
      n := m + 1;
      assert t[..n] == [t[0]] + t[1..][..m];
    }
  }

  lemma {:induction false} BlockEnds(t: string) returns (n: nat)
    ensures n <= |t|
            && (if n < |t| then n + 1 < |t| && t[n] == '*' && t[n + 1] == '/'
                                && NoMark(t[..n], "*/") else NoMark(t, ""))
  {
    if |t| < 2 {
      n := |t|;
    } else if t[0] == '*' && t[1] == '/' {
      n := 0;
    } else {
      var m := BlockEnds(t[1..]);
      n := m + 1;
      if n < |t| {
        assert t[..n] + "*/" == t[..n + 2];
        assert t[1..][..m] + "*/" == t[1..][..m + 2];
        assert forall k :: 0 < k < n ==> t[..n][k] == t[1..][..m][k - 1];
      } else {
        assert t + "" == t && t[1..] + "" == t[1..];
        assert forall k :: 0 < k < |t| ==> t[k] == t[1..][k - 1];
      }
    }
  }

  lemma LiteralPiece(t: string) returns (p: Piece, rest: string)
    requires t != "" && IsQuote(t[0])
    ensures Fits(p, rest) && Source(p) + rest == t
  {
    var n := LiteralEnds(t[0], false, t[1..]);
    ContainedExact(t[0], t[1..][..n]);
    if n < |t| - 1 {
      p, rest := Quoted(t[0], t[1..][..n]), t[n + 2..];
    } else {
      p, rest := OpenQuoted(t[0], t[1..]), "";
      assert t[1..][..n] == t[1..];
    }
  }

  lemma LineCommentPiece(t: string) returns (p: Piece, rest: string)
    requires OpensLine(t)
    ensures Fits(p, rest) && Source(p) + rest == t
  {
    var n := LineEnds(t[2..]);
    p, rest := LineComment(t[2..][..n]), t[n + 2..];
  }

  lemma BlockCommentPiece(t: string) returns (p: Piece, rest: string)
    requires OpensBlock(t)
    ensures Fits(p, rest) && Source(p) + rest == t
  {
    var n := BlockEnds(t[2..]);
    if n < |t| - 2 {
      p, rest := BlockComment(t[2..][..n]), t[n + 4..];
    } else {
      p, rest := OpenBlock(t[2..]), "";
    }
  }

  /** The first piece of a text. */
  lemma FirstPiece(t: string) returns (p: Piece, rest: string)
    requires t != ""
    ensures Fits(p, rest) && Source(p) + rest == t
  {
    if IsQuote(t[0]) {
      p, rest := LiteralPiece(t);
    } else if OpensLine(t) {
      p, rest := LineCommentPiece(t);
    } else if OpensBlock(t) {
      p, rest := BlockCommentPiece(t);
    } else {
      p, rest := Plain(t[0]), t[1..];
      assert [t[0]] + t[1..] == t;
    }
  }

  lemma PieceIsLonger(p: Piece)
    ensures |Source(p)| > 0
  {
  }

  lemma {:induction false} EveryTextSplits(t: string) returns (ps: seq<Piece>)
    ensures Splits(ps) && SourceText(ps) == t
    decreases |t|
  {
    if t == "" {
      ps := [];
    } else {
      var p, rest := FirstPiece(t);
      PieceIsLonger(p);
      assert |t| == |Source(p)| + |rest|;
      var more := EveryTextSplits(rest);
      ps := [p] + more;
      assert ps[1..] == more;
    }
  }

  // ----- The scan

  /** What is still to be read from `index` on; the scan may step past the end. */
  ghost function Rest(text: string, index: nat): string {
    if index <= |text| then text[index..] else []
  }

  /** What the scan will have produced once it has read everything. */
  ghost function Outcome(out: string, m: Mode, text: string, index: nat): string {
    out + Strip(m, Rest(text, index))
  }

  lemma CopyStep(out: string, m: Mode, text: string, index: nat)
    requires index < |text|
    requires m.Code? ==> !OpensLine(text[index..]) && !OpensBlock(text[index..])
    ensures var c := text[index];
            var next := if m.Literal? then Advance(m, c) else if IsQuote(c) then Literal(c, false) else Code;
            Outcome(out, m, text, index) == Outcome(out + [c], next, text, index + 1)
  {
    assert text[index..][1..] == text[index + 1..];
  }

  lemma LineStep(out: string, text: string, index: nat, next: nat)
    requires index < |text| && OpensLine(text[index..])
    requires Rest(text, next) == AfterLine(text[index..])
    ensures Outcome(out, Code, text, index) == Outcome(out + ['\n'], Code, text, next)
  {
  }

  lemma BlockStep(out: string, text: string, index: nat, next: nat)
    requires index < |text| && OpensBlock(text[index..])
    requires index + 2 <= |text| && Rest(text, next) == AfterBlock(text[index + 2..])
    ensures Outcome(out, Code, text, index) == Outcome(out, Code, text, next)
  {
  }

  lemma Finished(out: string, m: Mode, text: string, index: nat)
    requires index >= |text|
    requires Outcome(out, m, text, index) == Outcome([], Code, text, 0)
    ensures out == Strip(Code, text)
  {
    assert Rest(text, index) == [] && Strip(m, []) == [] && out + [] == out;
    assert Rest(text, 0) == text && [] + Strip(Code, text) == Strip(Code, text);
  }

  /** The loop over a line comment, up to but not past its newline. */
  method SkipLine(text: string, start: nat) returns (index: nat)
    requires start <= |text|
    ensures start <= index && Rest(text, index) == AfterLine(text[start..])
  {
    index := start;
    while index < |text| && text[index] != '\n'
      invariant start <= index <= |text|
      invariant AfterLine(text[index..]) == AfterLine(text[start..])
    {
      assert text[index..][1..] == text[index + 1..];
      index := index + 1;
    }
  }

  /** The loop over a block comment whose body starts at `start`; it steps over the
      closing mark even when the text ends before one. */
  method SkipBlock(text: string, start: nat) returns (index: nat)
    requires start <= |text|
    ensures start < index && Rest(text, index) == AfterBlock(text[start..])
  {
    index := start;
    while index + 1 < |text| && !(text[index] == '*' && text[index + 1] == '/')
      invariant start <= index <= |text|
      invariant AfterBlock(text[index..]) == AfterBlock(text[start..])
    {
      assert text[index..][1..] == text[index + 1..];
      index := index + 1;
    }
    assert index + 1 < |text| ==> text[index..][2..] == text[index + 2..];
    index := index + 2;
  }

  method StripJsonComments(text: string) returns (out: string)
    ensures out == Strip(Code, text)
  {
    out := [];
    var inString, quote, escaped := false, '\0', false;
    var index := 0;
    while index < |text|
      invariant !inString ==> !escaped
      invariant Outcome(out, if inString then Literal(quote, escaped) else Code, text, index)
             == Outcome([], Code, text, 0)
      decreases |text| - index
    {
      var c := text[index];
      var next := if index + 1 < |text| then text[index + 1] else '\0';
      if inString {
        CopyStep(out, Literal(quote, escaped), text, index);
        out := out + [c];
        if escaped {
          escaped := false;
        } else if c == '\\' {
          escaped := true;
        } else if c == quote {
          inString := false;
        }
        index := index + 1;
      } else if IsQuote(c) {
        CopyStep(out, Code, text, index);
        inString, quote := true, c;
        out := out + [c];
        index := index + 1;
      } else if c == '/' && next == '/' {
        var after := SkipLine(text, index);
        LineStep(out, text, index, after);
        out := out + ['\n'];
        index := after;
      } else if c == '/' && next == '*' {
        var after := SkipBlock(text, index + 2);
        BlockStep(out, text, index, after);
        index := after;
      } else {
        CopyStep(out, Code, text, index);
        out := out + [c];
        index := index + 1;
      }
    }
    Finished(out, if inString then Literal(quote, escaped) else Code, text, index);
  }
}
