/**
 Which texts are cursors of the job list, and of which positions: the base64 of a compact JSON
 object whose two strings are written in any way that section 7 of RFC 8259 allows in ASCII.
 */
module CursorTexts {
  import opened Options
  import opened JobCursor
  import Base64

  // ----- Spellings of a character

  /** A digit of base 16 by code point, small or capital. */
  ghost predicate IsNibble(c: char, v: int) {
    var n := c as int;
    || (48 <= n <= 57 && v == n - 48)
    || (97 <= n <= 102 && v == n - 87)
    || (65 <= n <= 70 && v == n - 55)
  }

  /** Digits of base 16 and the number that they are, the last digit counting ones. */
  ghost predicate IsNumber(s: string, n: int) {
    if s == "" then n == 0
    else exists m :: IsNumber(s[..|s| - 1], m) && IsNibble(s[|s| - 1], n - 16 * m)
  }

  ghost predicate IsFour(s: string, n: int) {
    |s| == 4 && IsNumber(s, n)
  }

  ghost predicate AsItIs(p: string, c: char) {
    p == [c] && c != '"' && c != '\\' && c as int >= 32
  }

  ghost predicate ByLetter(p: string, c: char) {
    && |p| == 2 && p[0] == '\\'
    && match p[1]
       case '"' => c == '"'
       case '\\' => c == '\\'
       case '/' => c == '/'
       case 'b' => c as int == 8
       case 'f' => c as int == 12
       case 'n' => c as int == 10
       case 'r' => c as int == 13
       case 't' => c as int == 9
       case _ => false
  }

  ghost predicate ByNumber(p: string, c: char) {
    |p| == 6 && p[0] == '\\' && p[1] == 'u' && IsFour(p[2..], c as int)
  }

  /** Two numbers for one character. */
  ghost predicate ArePair(m: int, n: int, c: char) {
    0xD800 <= m < 0xDC00 <= n < 0xE000 && c as int == 0x1_0000 + (m - 0xD800) * 1024 + (n - 0xDC00)
  }

  ghost predicate ByPair(p: string, c: char) {
    && |p| == 12 && p[0] == '\\' && p[1] == 'u' && p[6] == '\\' && p[7] == 'u'
    && exists m, n :: IsFour(p[2..6], m) && IsFour(p[8..], n) && ArePair(m, n, c)
  }

  ghost predicate Spells(p: string, c: char) {
    AsItIs(p, c) || ByLetter(p, c) || ByNumber(p, c) || ByPair(p, c)
  }

  ghost predicate SpellsAll(text: string, s: string)
    decreases |s|
  {
    if s == "" then text == ""
    else exists n :: 0 < n <= |text| && Spells(text[..n], s[0]) && SpellsAll(text[n..], s[1..])
  }

  // ----- Reading takes exactly the spellings

  lemma NibbleExact(c: char, v: int)
    ensures HexValue(c).Some? && HexValue(c).value == v <==> IsNibble(c, v)
  {
  }

  lemma {:induction false} NumberExact(s: string, n: int)
    ensures HexNumber(s).Some? && HexNumber(s).value == n <==> IsNumber(s, n)
  {
    if s != "" {
      var front, c := s[..|s| - 1], s[|s| - 1];
      if HexNumber(s).Some? && HexNumber(s).value == n {
        var m := HexNumber(front).value;
        NibbleExact(c, n - 16 * m);
        NumberExact(front, m);
      }
      if m :| IsNumber(front, m) && IsNibble(c, n - 16 * m) {
        NibbleExact(c, n - 16 * m);
        NumberExact(front, m);
      }
    }
  }

  lemma {:induction false} NumberFits(s: string, n: int)
    requires IsNumber(s, n)
    ensures 0 <= n < Power(|s|)
  {
    if s != "" {
      var m :| IsNumber(s[..|s| - 1], m) && IsNibble(s[|s| - 1], n - 16 * m);
      NumberFits(s[..|s| - 1], m);
    }
  }

  lemma FourFits(s: string, n: int)
    requires IsFour(s, n)
    ensures 0 <= n < 0x1_0000
  {
    NumberFits(s, n);
    assert Power(2) == 256 && Power(4) == 256 * Power(2);
  }

  lemma FourExact(text: string, n: int)
    ensures FourDigits(text).Some? && FourDigits(text).value == n <==> |text| >= 4 && IsFour(text[..4], n)
  {
    if |text| >= 4 {
      NumberExact(text[..4], n);
    }
  }

  lemma OneExact(text: string, c: char)
    ensures ReadNumber(text) == Some((c, 4)) <==> |text| >= 4 && IsFour(text[..4], c as int)
  {
    FourExact(text, c as int);
    if |text| >= 4 && IsFour(text[..4], c as int) {
      FourFits(text[..4], c as int);
    }
  }

  lemma PairExact(text: string, c: char)
    ensures ReadNumber(text) == Some((c, 10)) <==>
            && |text| >= 10 && text[4] == '\\' && text[5] == 'u'
            && exists m, n :: IsFour(text[..4], m) && IsFour(text[6..10], n) && ArePair(m, n, c)
  {
    if |text| >= 10 {
      assert text[4..6] == "\\u" <==> text[4] == '\\' && text[5] == 'u';
      assert text[6..][..4] == text[6..10];
      if FourDigits(text).Some? && FourDigits(text[6..]).Some? {
        FourExact(text, FourDigits(text).value);
        FourExact(text[6..], FourDigits(text[6..]).value);
      }
      if m, n :| IsFour(text[..4], m) && IsFour(text[6..10], n) && ArePair(m, n, c) {
        FourExact(text, m);
        FourExact(text[6..], n);
      }
    }
  }

  lemma LengthOfNumber(text: string)
    requires ReadNumber(text).Some?
    ensures ReadNumber(text).value.1 == 4 || ReadNumber(text).value.1 == 10
  {
  }

  /** After a backslash and a `u`. */
  lemma NumberPiece(text: string, c: char, n: nat)
    requires |text| >= 2 && text[0] == '\\' && text[1] == 'u'
    ensures ReadEscape(text[1..]) == Some((c, n)) <==> n < |text| && Spells(text[..n + 1], c)
  {
    var number := text[2..];
    assert text[1..][1..] == number;
    OneExact(number, c);
    PairExact(number, c);
    if ReadNumber(number).Some? {
      LengthOfNumber(number);
    }
    if |text| >= 6 {
      assert text[..6][2..] == number[..4];
    }
    if |text| >= 12 {
      assert text[..12][2..6] == number[..4] && text[..12][8..] == number[6..10];
    }
  }

  /** After a backslash and anything else. */
  lemma LetterPiece(text: string, c: char, n: nat)
    requires |text| >= 1 && text[0] == '\\' && (|text| >= 2 ==> text[1] != 'u')
    ensures ReadEscape(text[1..]) == Some((c, n)) <==> n < |text| && Spells(text[..n + 1], c)
  {
  }

  /** One character of a string, and how much of the text spells it. */
  ghost function Piece(text: string): Option<(char, nat)>
    requires text != ""
  {
    if text[0] == '\\' then ReadEscape(text[1..]) else Some((text[0], 0))
  }

  lemma PieceExact(text: string, c: char, n: nat)
    requires text != "" && text[0] >= ' ' && text[0] != '"'
    ensures Piece(text) == Some((c, n)) <==> n < |text| && Spells(text[..n + 1], c)
  {
    if text[0] == '\\' && |text| >= 2 && text[1] == 'u' {
      NumberPiece(text, c, n);
    } else if text[0] == '\\' {
      LetterPiece(text, c, n);
    }
  }

  // ----- Strings

  /** A string that a quotation mark ends. */
  ghost predicate Quoted(text: string, k: nat, s: string) {
    k < |text| && text[k] == '"' && SpellsAll(text[..k], s)
  }

  /** One more character in front. */
  lemma QuotedStep(text: string, n: nat, k: nat, s: string)
    requires s != "" && 0 < n <= |text| && Spells(text[..n], s[0]) && Quoted(text[n..], k, s[1..])
    ensures Quoted(text, n + k, s)
  {
    var all := text[..n + k];
    assert all[..n] == text[..n] && all[n..] == text[n..][..k];
  }

  lemma QuotedFirst(text: string, k: nat, s: string) returns (n: nat)
    requires s != "" && Quoted(text, k, s)
    ensures 0 < n <= k && Spells(text[..n], s[0]) && Quoted(text[n..], k - n, s[1..])
    ensures text[0] >= ' ' && text[0] != '"'
  {
    var all := text[..k];
    n :| 0 < n <= |all| && Spells(all[..n], s[0]) && SpellsAll(all[n..], s[1..]);
    assert all[..n] == text[..n] && all[n..] == text[n..][..k - n];
    assert text[..n][0] == text[0];
  }

  lemma {:induction false} QuotedIsRead(text: string, k: nat, s: string)
    requires Quoted(text, k, s)
    ensures ReadString(text) == Some((s, text[k..]))
    decreases |s|
  {
    if s != "" {
      var n := QuotedFirst(text, k, s);
      PieceExact(text, s[0], n - 1);
      QuotedIsRead(text[n..], k - n, s[1..]);
      assert text[n..][k - n..] == text[k..];
      assert s == [s[0]] + s[1..];
    } else {
      assert text[0..] == text;
    }
  }

  lemma PieceRead(text: string, s: string, rest: string) returns (n: nat)
    requires ReadString(text) == Some((s, rest)) && text[0] != '"'
    ensures s != "" && 0 < n <= |text| && Spells(text[..n], s[0])
    ensures ReadString(text[n..]) == Some((s[1..], rest))
  {
    var piece := Piece(text).value;
    n := piece.1 + 1;
    PieceExact(text, piece.0, piece.1);
    assert s == [piece.0] + ReadString(text[n..]).value.0;
  }

  lemma {:induction false} ReadIsQuoted(text: string, s: string, rest: string) returns (k: nat)
    requires ReadString(text) == Some((s, rest))
    ensures Quoted(text, k, s) && rest == text[k..]
    decreases |text|
  {
    if text[0] == '"' {
      k := 0;
    } else {
      var n := PieceRead(text, s, rest);
      var more := ReadIsQuoted(text[n..], s[1..], rest);
      QuotedStep(text, n, more, s);
      assert text[n..][more..] == text[n + more..];
      k := n + more;
    }
  }

  /** A string is read exactly when it is spelled up to a quotation mark, with any of the escapes. */
  lemma StringExact(text: string, s: string, rest: string)
    ensures ReadString(text) == Some((s, rest)) <==> exists k: nat :: Quoted(text, k, s) && rest == text[k..]
  {
    if ReadString(text) == Some((s, rest)) {
      var k := ReadIsQuoted(text, s, rest);
    }
    if k: nat :| Quoted(text, k, s) && rest == text[k..] {
      QuotedIsRead(text, k, s);
    }
  }

  // ----- Objects

  /** The object with the two strings spelled as `a` and `b`, member by member. */
  ghost predicate IsObject(text: string, a: string, b: string) {
    text == "{\"updated_at\":\"" + (a + ("\",\"id\":\"" + (b + "\"}")))
  }

  ghost predicate IsSpelledKey(text: string, k: Key) {
    exists a, b :: IsObject(text, a, b) && SpellsAll(a, k.updatedAt) && SpellsAll(b, k.id)
  }

  lemma SpelledIsRead(a: string, rest: string, s: string)
    requires SpellsAll(a, s) && rest != "" && rest[0] == '"'
    ensures ReadString(a + rest) == Some((s, rest))
  {
    assert (a + rest)[..|a|] == a && (a + rest)[|a|..] == rest;
    StringExact(a + rest, s, rest);
    assert Quoted(a + rest, |a|, s);
  }

  lemma ReadIsSpelled(text: string, s: string, rest: string) returns (a: string)
    requires ReadString(text) == Some((s, rest))
    ensures text == a + rest && SpellsAll(a, s) && rest != "" && rest[0] == '"'
  {
    StringExact(text, s, rest);
    var k: nat :| Quoted(text, k, s) && rest == text[k..];
    a := text[..k];
  }

  lemma LoadExact(text: string, k: Key)
    ensures Load(text) == Some(k) <==> IsSpelledKey(text, k)
  {
    if a, b :| IsObject(text, a, b) && SpellsAll(a, k.updatedAt) && SpellsAll(b, k.id) {
      SpelledIsRead(a, MIDDLE + (b + CLOSING), k.updatedAt);
      SpelledIsRead(b, CLOSING, k.id);
      LoadText(a, b, k);
    }
    if Load(text) == Some(k) {
      var first := text[|OPENING|..];
      var a := ReadIsSpelled(first, k.updatedAt, ReadString(first).value.1);
      var rest := ReadString(first).value.1;
      var second := rest[|MIDDLE|..];
      var b := ReadIsSpelled(second, k.id, CLOSING);
      assert text == OPENING + first && rest == MIDDLE + second;
      assert IsObject(text, a, b);
    }
  }

  // ----- Cursors

  /** The bytes of a text in ASCII. */
  ghost predicate AreBytes(bytes: seq<Base64.Byte>, text: string) {
    |bytes| == |text| && forall i :: 0 <= i < |text| ==> bytes[i] == text[i] as int < 128
  }

  /** A job's identifier: `job_` and thirty-two small digits of base 16. */
  ghost predicate NamesJob(id: string) {
    && |id| == 36 && id[0] == 'j' && id[1] == 'o' && id[2] == 'b' && id[3] == '_'
    && forall i :: 4 <= i < 36 ==> id[i] in "0123456789abcdef"
  }

  /** A text that a request may send as the cursor of a position. */
  ghost predicate IsCursor(value: string, k: Key) {
    && 0 < |value| <= 256 && 0 < |k.updatedAt| <= 64 && NamesJob(k.id)
    && exists d, q: nat, bytes, text ::
         Base64.IsText(value, d, q, bytes) && AreBytes(bytes, text) && IsSpelledKey(text, k)
  }

  lemma TextExact(bytes: seq<Base64.Byte>, text: string)
    ensures ToText(bytes) == Some(text) <==> AreBytes(bytes, text)
  {
    if AreBytes(bytes, text) {
      assert seq(|bytes|, i requires 0 <= i < |bytes| => bytes[i] as char) == text;
    }
  }

  lemma JobIdExact(id: string)
    ensures IsJobId(id) <==> NamesJob(id)
  {
    if |id| == 36 {
      assert id[..4] == "job_" <==> id[0] == 'j' && id[1] == 'o' && id[2] == 'b' && id[3] == '_';
    }
  }

  /** Exactly these texts are decoded, each to its position. */
  lemma DecodeExact(value: string, k: Key)
    ensures DecodeCursor(value) == Some(k) <==> IsCursor(value, k)
  {
    JobIdExact(k.id);
    if DecodeCursor(value) == Some(k) {
      var bytes := Base64.Decode(value).value;
      var text := ToText(bytes).value;
      Base64.DecodeExact(value, bytes);
      TextExact(bytes, text);
      LoadExact(text, k);
    }
    if IsCursor(value, k) {
      var d, q: nat, bytes, text :|
        Base64.IsText(value, d, q, bytes) && AreBytes(bytes, text) && IsSpelledKey(text, k);
      Base64.DecodeExact(value, bytes);
      TextExact(bytes, text);
      LoadExact(text, k);
    }
  }

  // ----- The one that is written

  /** Numbers with small digits. */
  ghost predicate IsSmall(p: string) {
    forall i :: 0 <= i < |p| ==> !('A' <= p[i] <= 'F')
  }

  /** How a character is written: as it is where that is printable ASCII, by its letter where it
      has to have one, and otherwise by its number or numbers. */
  ghost predicate Writes(p: string, c: char) {
    var n := c as int;
    if n == 34 || n == 92 || 8 <= n <= 10 || 12 <= n <= 13 then ByLetter(p, c)
    else if 32 <= n <= 126 then p == [c]
    else IsSmall(p) && if n < 0x1_0000 then ByNumber(p, c) else ByPair(p, c)
  }

  ghost predicate WritesAll(text: string, s: string)
    decreases |s|
  {
    if s == "" then text == ""
    else exists n :: 0 < n <= |text| && Writes(text[..n], s[0]) && WritesAll(text[n..], s[1..])
  }

  lemma {:induction false} HexIsSmall(n: nat, width: nat)
    ensures IsSmall(Hex(n, width))
    decreases width
  {
    if width > 0 {
      HexIsSmall(n / 16, width - 1);
    }
  }

  lemma HexIsFour(n: nat)
    requires n < 0x1_0000
    ensures IsFour(Hex(n, 4), n) && IsSmall(Hex(n, 4))
  {
    assert Power(2) == 256 && Power(4) == 256 * Power(2);
    HexIsRead(n, 4);
    NumberExact(Hex(n, 4), n);
    HexIsSmall(n, 4);
  }

  lemma PairSpelled(high: string, low: string, m: int, n: int, c: char)
    requires IsFour(high, m) && IsFour(low, n) && ArePair(m, n, c) && IsSmall(high) && IsSmall(low)
    ensures var p := "\\u" + (high + ("\\u" + low));
            ByPair(p, c) && IsSmall(p)
  {
    var p := "\\u" + (high + ("\\u" + low));
    assert p[2..6] == high && p[8..] == low;
  }

  lemma PairParts(c: char) returns (m: nat, n: nat)
    requires c as int >= 0x1_0000
    ensures ArePair(m, n, c) && NumberOf(c) == Hex(m, 4) + ("\\u" + Hex(n, 4))
  {
    var v := c as int - 0x1_0000;
    m, n := 0xD800 + v / 1024, 0xDC00 + v % 1024;
  }

  lemma PairIsWritten(c: char)
    requires c as int >= 0x1_0000
    ensures Writes("\\u" + NumberOf(c), c)
  {
    var m, n := PairParts(c);
    HexIsFour(m);
    HexIsFour(n);
    PairSpelled(Hex(m, 4), Hex(n, 4), m, n, c);
  }

  lemma OneIsWritten(c: char)
    requires c as int < 0x1_0000 && LetterOf(c).None? && !(' ' <= c <= '~')
    ensures Writes("\\u" + NumberOf(c), c)
  {
    HexIsFour(c as int);
    var p := "\\u" + Hex(c as int, 4);
    assert p[2..] == Hex(c as int, 4);
  }

  lemma EscapedExact(c: char)
    ensures Writes(Escaped(c), c)
  {
    if LetterOf(c).None? && !(' ' <= c <= '~') {
      if c as int < 0x1_0000 {
        OneIsWritten(c);
      } else {
        PairIsWritten(c);
      }
    }
  }

  lemma {:induction false} WrittenExact(s: string)
    ensures WritesAll(Written(s), s)
  {
    if s != "" {
      WrittenExact(s[1..]);
      EscapedExact(s[0]);
      var p := Escaped(s[0]);
      assert Written(s)[..|p|] == p && Written(s)[|p|..] == Written(s[1..]);
    }
  }

  ghost predicate IsWrittenKey(text: string, k: Key) {
    exists a, b :: IsObject(text, a, b) && WritesAll(a, k.updatedAt) && WritesAll(b, k.id)
  }

  lemma DumpExact(k: Key)
    ensures IsWrittenKey(Dump(k), k)
  {
    var a, b := Written(k.updatedAt), Written(k.id);
    WrittenExact(k.updatedAt);
    WrittenExact(k.id);
    Associate(OPENING + a + MIDDLE, b, CLOSING);
    Associate(OPENING + a, MIDDLE, b + CLOSING);
    Associate(OPENING, a, MIDDLE + (b + CLOSING));
    assert IsObject(Dump(k), a, b);
  }

  /** The cursor of a position: the letters, with no padding and spare bits that are zero, for the
      object with its strings as Python writes them. */
  ghost predicate IsCursorOf(value: string, k: Key) {
    exists d, bytes, text ::
      && Base64.Digits(value, d) && Base64.Carry(d, bytes) && Base64.SpareAreZero(d)
      && AreBytes(bytes, text) && IsWrittenKey(text, k)
  }

  lemma AsciiBytes(text: string)
    requires IsAscii(text)
    ensures AreBytes(ToBytes(text), text)
  {
  }

  lemma CursorFrom(value: string, bytes: seq<Base64.Byte>, text: string, k: Key)
    requires value == Base64.Encode(bytes) && AreBytes(bytes, text) && IsWrittenKey(text, k)
    ensures IsCursorOf(value, k)
  {
    var d := Base64.EncodeExact(bytes);
  }

  lemma EncodeExact(k: Key)
    ensures IsCursorOf(EncodeCursor(k), k)
  {
    DumpIsAscii(k);
    AsciiBytes(Dump(k));
    DumpExact(k);
    CursorFrom(EncodeCursor(k), ToBytes(Dump(k)), Dump(k), k);
  }
}
