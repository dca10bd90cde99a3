/**
 The cursor of the job list: a position as compact JSON, in unpadded base64.

 Strings are written in JSON as ASCII (section 7 of RFC 8259), and read back from any such
 text.  A string has no lone surrogates.
 */
module JobCursor {
  import opened Options
  import Base64

  /** Where a job stands in the list. */
  datatype Key = Key(updatedAt: string, id: string)

  predicate IsJobId(id: string) {
    && |id| == 36 && id[..4] == "job_"
    && forall i :: 4 <= i < 36 ==> 'a' <= id[i] <= 'f' || '0' <= id[i] <= '9'
  }

  // ----- Strings in JSON

  function HexDigit(d: nat): char
    requires d < 16
  {
    if d < 10 then '0' + d as char else 'a' + (d - 10) as char
  }

  function HexValue(c: char): (r: Option<nat>)
    ensures r.Some? ==> r.value < 16
  {
    if '0' <= c <= '9' then Some(c as int - '0' as int)
    else if 'a' <= c <= 'f' then Some(c as int - 'a' as int + 10)
    else if 'A' <= c <= 'F' then Some(c as int - 'A' as int + 10)
    else None
  }

  function Hex(n: nat, width: nat): (s: string)
    ensures |s| == width
    decreases width
  {
    if width == 0 then "" else Hex(n / 16, width - 1) + [HexDigit(n % 16)]
  }

  function HexNumber(s: string): Option<nat> {
    if s == "" then Some(0)
    else
      var front, last := HexNumber(s[..|s| - 1]), HexValue(s[|s| - 1]);
      if front.None? || last.None? then None else Some(16 * front.value + last.value)
  }

  /** The number of a character, or the pair of numbers that stands for it. */
  function NumberOf(c: char): string {
    if c as int < 0x1_0000 then Hex(c as int, 4) else PairOf(c as int - 0x1_0000)
  }

  function PairOf(v: nat): string {
    Hex(0xD800 + v / 1024, 4) + ("\\u" + Hex(0xDC00 + v % 1024, 4))
  }

  /** The letter that stands for a character after a backslash. */
  function LetterOf(c: char): Option<char> {
    if c == '"' || c == '\\' then Some(c)
    else if c == '\n' then Some('n')
    else if c == '\r' then Some('r')
    else if c == '\t' then Some('t')
    else if c == 8 as char then Some('b')
    else if c == 12 as char then Some('f')
    else None
  }

  function OfLetter(letter: char): Option<char> {
    if letter == '"' || letter == '\\' || letter == '/' then Some(letter)
    else if letter == 'n' then Some('\n')
    else if letter == 'r' then Some('\r')
    else if letter == 't' then Some('\t')
    else if letter == 'b' then Some(8 as char)
    else if letter == 'f' then Some(12 as char)
    else None
  }

  /** How a character is written: by a letter, as it is, or by one or two numbers. */
  function Escaped(c: char): string {
    if LetterOf(c).Some? then ['\\', LetterOf(c).value]
    else if ' ' <= c <= '~' then [c]
    else "\\u" + NumberOf(c)
  }

  function Written(s: string): string {
    if s == "" then "" else Escaped(s[0]) + Written(s[1..])
  }

  function FourDigits(text: string): Option<nat> {
    if |text| < 4 then None else HexNumber(text[..4])
  }

  /** The character that a number, or a pair of them, stands for, and how long it is. */
  function ReadNumber(text: string): (r: Option<(char, nat)>)
    ensures r.Some? ==> 0 < r.value.1 <= |text|
  {
    var first := FourDigits(text);
    if first.None? then None
    else if first.value < 0xD800 || 0xE000 <= first.value < 0x1_0000 then Some((first.value as char, 4))
    else if first.value >= 0xDC00 || |text| < 10 || text[4..6] != "\\u" then None
    else
      var second := FourDigits(text[6..]);
      if second.None? || !(0xDC00 <= second.value < 0xE000) then None
      else Some((((first.value - 0xD800) * 1024 + second.value - 0xDC00 + 0x1_0000) as char, 10))
  }

  /** What follows a backslash. */
  function ReadEscape(text: string): (r: Option<(char, nat)>)
    ensures r.Some? ==> 0 < r.value.1 <= |text|
  {
    if text == "" then None
    else if text[0] == 'u' then
      var number := ReadNumber(text[1..]);
      if number.None? then None else Some((number.value.0, number.value.1 + 1))
    else if OfLetter(text[0]).Some? then Some((OfLetter(text[0]).value, 1))
    else None
  }

  /** A string up to the quotation mark that ends it, and the rest from there. */
  function ReadString(text: string): Option<(string, string)>
    decreases |text|
  {
    if text == "" || text[0] < ' ' then None
    else if text[0] == '"' then Some(("", text))
    else
      var one := if text[0] == '\\' then ReadEscape(text[1..]) else Some((text[0], 0));
      if one.None? then None
      else
        var more := ReadString(text[1 + one.value.1..]);
        if more.None? then None else Some(([one.value.0] + more.value.0, more.value.1))
  }

  // ----- Cursors

  const OPENING := "{\"updated_at\":\""
  const MIDDLE := "\",\"id\":\""
  const CLOSING := "\"}"

  function Dump(k: Key): string {
    OPENING + Written(k.updatedAt) + MIDDLE + Written(k.id) + CLOSING
  }

  /** What follows a word that the text starts with. */
  function AfterWord(text: string, word: string): Option<string> {
    if word <= text then Some(text[|word|..]) else None
  }

  /** A string after a word, and the rest from its quotation mark. */
  function ReadAfter(text: string, word: string): Option<(string, string)> {
    var body := AfterWord(text, word);
    if body.None? then None else ReadString(body.value)
  }

  function Load(text: string): Option<Key> {
    var updatedAt := ReadAfter(text, OPENING);
    if updatedAt.None? then None
    else
      var id := ReadAfter(updatedAt.value.1, MIDDLE);
      if id.None? || id.value.1 != CLOSING then None else Some(Key(updatedAt.value.0, id.value.0))
  }

  function ToBytes(s: string): seq<Base64.Byte> {
    seq(|s|, i requires 0 <= i < |s| => s[i] as int % 256)
  }

  function ToText(bytes: seq<Base64.Byte>): Option<string> {
    if exists i :: 0 <= i < |bytes| && bytes[i] >= 128 then None
    else Some(seq(|bytes|, i requires 0 <= i < |bytes| => bytes[i] as char))
  }

  function EncodeCursor(k: Key): string {
    Base64.Encode(ToBytes(Dump(k)))
  }

  function DecodeCursor(value: string): Option<Key> {
    if value == "" || |value| > 256 then None
    else
      var bytes := Base64.Decode(value);
      var text := if bytes.None? then None else ToText(bytes.value);
      if text.None? then None
      else
        var k := Load(text.value);
        if k.None? || k.value.updatedAt == "" || |k.value.updatedAt| > 64 || !IsJobId(k.value.id) then None else k
  }

  // ----- Writing and reading

  ghost function Power(width: nat): nat {
    if width == 0 then 1 else 16 * Power(width - 1)
  }

  lemma DigitIsRead(d: nat)
    requires d < 16
    ensures HexValue(HexDigit(d)) == Some(d)
  {
  }

  lemma {:induction false} HexIsRead(n: nat, width: nat)
    requires n < Power(width)
    ensures HexNumber(Hex(n, width)) == Some(n)
    decreases width
  {
    if width > 0 {
      HexIsRead(n / 16, width - 1);
      DigitIsRead(n % 16);
      assert Hex(n, width)[..width - 1] == Hex(n / 16, width - 1);
    }
  }

  lemma DigitsAreRead(n: nat, rest: string)
    requires n < 0x1_0000
    ensures FourDigits(Hex(n, 4) + rest) == Some(n)
  {
    assert Power(2) == 256 && Power(4) == 256 * Power(2);
    HexIsRead(n, 4);
    assert (Hex(n, 4) + rest)[..4] == Hex(n, 4);
  }

  /** Two numbers in a row. */
  lemma PairIsRead(high: string, low: string, rest: string, m: nat, n: nat)
    requires |high| == 4 == |low| && FourDigits(high) == Some(m) && FourDigits(low + rest) == Some(n)
    requires 0xD800 <= m < 0xDC00 <= n < 0xE000
    ensures ReadNumber(high + ("\\u" + low) + rest)
         == Some((((m - 0xD800) * 1024 + n - 0xDC00 + 0x1_0000) as char, 10))
  {
    var text := high + ("\\u" + low) + rest;
    assert text[..4] == high == high[..4];
    assert text[4..6] == "\\u";
    assert text[6..] == low + rest;
  }

  lemma OneIsRead(n: nat, rest: string)
    requires n < 0xD800 || 0xE000 <= n < 0x1_0000
    ensures ReadNumber(Hex(n, 4) + rest) == Some((n as char, 4))
  {
    DigitsAreRead(n, rest);
  }

  lemma TwoAreRead(v: nat, rest: string)
    requires v < 0x10_0000
    ensures ReadNumber(PairOf(v) + rest) == Some(((v + 0x1_0000) as char, 10))
  {
    var m, n := 0xD800 + v / 1024, 0xDC00 + v % 1024;
    HighIsRead(v);
    DigitsAreRead(n, rest);
    PairIsRead(Hex(m, 4), Hex(n, 4), rest, m, n);
    assert (m - 0xD800) * 1024 + n - 0xDC00 == v;
  }

  lemma NumberIsRead(c: char, rest: string)
    ensures ReadNumber(NumberOf(c) + rest) == Some((c, |NumberOf(c)|))
  {
    if c as int < 0x1_0000 {
      OneIsRead(c as int, rest);
    } else {
      TwoAreRead(c as int - 0x1_0000, rest);
      assert |PairOf(c as int - 0x1_0000)| == 10;
    }
  }

  lemma HighIsRead(v: nat)
    requires v < 0x10_0000
    ensures FourDigits(Hex(0xD800 + v / 1024, 4)) == Some(0xD800 + v / 1024)
  {
    var high := Hex(0xD800 + v / 1024, 4);
    DigitsAreRead(0xD800 + v / 1024, []);
    assert high + [] == high;
  }

  lemma LetterIsRead(c: char)
    requires LetterOf(c).Some?
    ensures LetterOf(c).value != 'u' && OfLetter(LetterOf(c).value) == Some(c)
  {
  }

  /** What is written for a character is read back as it. */
  ghost predicate Reads(head: string, c: char, rest: string) {
    && head != "" && head[0] != '"' && head[0] >= ' '
    && if head[0] == '\\' then ReadEscape(head[1..] + rest) == Some((c, |head| - 1)) else head == [c]
  }

  lemma LetterReads(c: char, rest: string)
    requires LetterOf(c).Some?
    ensures Reads(['\\', LetterOf(c).value], c, rest)
  {
    LetterIsRead(c);
    assert (['\\', LetterOf(c).value][1..] + rest)[0] == LetterOf(c).value;
  }

  lemma NumberReads(number: string, c: char, rest: string)
    requires ReadNumber(number + rest) == Some((c, |number|))
    ensures Reads("\\u" + number, c, rest)
  {
    var text := ("\\u" + number)[1..] + rest;
    assert text[0] == 'u' && text[1..] == number + rest;
  }

  lemma EscapeIsRead(c: char, rest: string)
    ensures Reads(Escaped(c), c, rest)
  {
    if LetterOf(c).Some? {
      LetterReads(c, rest);
    } else if !(' ' <= c <= '~') {
      NumberIsRead(c, rest);
      NumberReads(NumberOf(c), c, rest);
    }
  }

  lemma HeadIsRead(head: string, c: char, tail: string)
    requires Reads(head, c, tail) && ReadString(tail).Some?
    ensures ReadString(head + tail) == Some(([c] + ReadString(tail).value.0, ReadString(tail).value.1))
  {
    var text := head + tail;
    assert text[0] == head[0] && text[1..] == head[1..] + tail;
    assert text[|head|..] == tail;
  }

  lemma CharacterIsRead(c: char, tail: string)
    requires ReadString(tail).Some?
    ensures ReadString(Escaped(c) + tail) == Some(([c] + ReadString(tail).value.0, ReadString(tail).value.1))
  {
    EscapeIsRead(c, tail);
    HeadIsRead(Escaped(c), c, tail);
  }

  lemma Associate(a: string, b: string, c: string)
    ensures (a + b) + c == a + (b + c)
  {
  }

  lemma {:induction false} StringIsRead(s: string, rest: string)
    requires rest != "" && rest[0] == '"'
    ensures ReadString(Written(s) + rest) == Some((s, rest))
  {
    if s == "" {
      assert Written(s) + rest == rest;
    } else {
      StringIsRead(s[1..], rest);
      CharacterIsRead(s[0], Written(s[1..]) + rest);
      Associate(Escaped(s[0]), Written(s[1..]), rest);
      assert s == [s[0]] + s[1..];
    }
  }

  lemma WordIsTaken(word: string, rest: string)
    ensures AfterWord(word + rest, word) == Some(rest)
  {
  }

  lemma LoadText(a: string, b: string, k: Key)
    requires ReadString(a + (MIDDLE + (b + CLOSING))) == Some((k.updatedAt, MIDDLE + (b + CLOSING)))
    requires ReadString(b + CLOSING) == Some((k.id, CLOSING))
    ensures Load(OPENING + (a + (MIDDLE + (b + CLOSING)))) == Some(k)
  {
    WordIsTaken(OPENING, a + (MIDDLE + (b + CLOSING)));
    WordIsTaken(MIDDLE, b + CLOSING);
  }

  lemma LoadDump(k: Key)
    ensures Load(Dump(k)) == Some(k)
  {
    var a, b := Written(k.updatedAt), Written(k.id);
    StringIsRead(k.updatedAt, MIDDLE + (b + CLOSING));
    StringIsRead(k.id, CLOSING);
    LoadText(a, b, k);
    Associate(OPENING + a + MIDDLE, b, CLOSING);
    Associate(OPENING + a, MIDDLE, b + CLOSING);
    Associate(OPENING, a, MIDDLE + (b + CLOSING));
  }

  ghost predicate IsAscii(s: string) {
    forall i :: 0 <= i < |s| ==> s[i] < 128 as char
  }

  lemma TextOfBytes(s: string)
    requires IsAscii(s)
    ensures ToText(ToBytes(s)) == Some(s)
  {
    var bytes := ToBytes(s);
    assert seq(|bytes|, i requires 0 <= i < |bytes| => bytes[i] as char) == s;
  }

  lemma AsciiJoined(a: string, b: string)
    requires IsAscii(a) && IsAscii(b)
    ensures IsAscii(a + b)
  {
  }

  lemma {:induction false} HexIsAscii(n: nat, width: nat)
    ensures IsAscii(Hex(n, width))
    decreases width
  {
    if width > 0 {
      HexIsAscii(n / 16, width - 1);
      AsciiJoined(Hex(n / 16, width - 1), [HexDigit(n % 16)]);
    }
  }

  lemma NumberIsAscii(c: char)
    ensures IsAscii(NumberOf(c))
  {
    if c as int < 0x1_0000 {
      HexIsAscii(c as int, 4);
    } else {
      var v := c as int - 0x1_0000;
      HexIsAscii(0xD800 + v / 1024, 4);
      HexIsAscii(0xDC00 + v % 1024, 4);
      AsciiJoined("\\u", Hex(0xDC00 + v % 1024, 4));
      AsciiJoined(Hex(0xD800 + v / 1024, 4), "\\u" + Hex(0xDC00 + v % 1024, 4));
    }
  }

  lemma EscapedIsAscii(c: char)
    ensures IsAscii(Escaped(c))
  {
    if LetterOf(c).None? && !(' ' <= c <= '~') {
      NumberIsAscii(c);
      AsciiJoined("\\u", NumberOf(c));
    }
  }

  lemma {:induction false} WrittenIsAscii(s: string)
    ensures IsAscii(Written(s))
  {
    if s != "" {
      WrittenIsAscii(s[1..]);
      EscapedIsAscii(s[0]);
      AsciiJoined(Escaped(s[0]), Written(s[1..]));
    }
  }

  lemma WordsAreAscii()
    ensures IsAscii(OPENING) && IsAscii(MIDDLE) && IsAscii(CLOSING)
  {
  }

  lemma DumpIsAscii(k: Key)
    ensures IsAscii(Dump(k))
  {
    var a, b := Written(k.updatedAt), Written(k.id);
    WordsAreAscii();
    WrittenIsAscii(k.updatedAt);
    WrittenIsAscii(k.id);
    AsciiJoined(OPENING, a);
    AsciiJoined(OPENING + a, MIDDLE);
    AsciiJoined(OPENING + a + MIDDLE, b);
    AsciiJoined(OPENING + a + MIDDLE + b, CLOSING);
  }

  /** Decoding a cursor undoes encoding it exactly for the positions that a cursor may carry,
      as long as the cursor is not too long for a request. */
  lemma CursorRoundTrip(k: Key)
    ensures DecodeCursor(EncodeCursor(k)) == Some(k)
       <==> 0 < |k.updatedAt| <= 64 && IsJobId(k.id) && |EncodeCursor(k)| <= 256
  {
    var bytes := ToBytes(Dump(k));
    Base64.RoundTrip(bytes);
    DumpIsAscii(k);
    TextOfBytes(Dump(k));
    LoadDump(k);
    if EncodeCursor(k) == "" {
      assert false;
    }
  }

  // ----- The timestamps that are written

  predicate IsPlain(s: string) {
    forall i :: 0 <= i < |s| ==> ' ' <= s[i] <= '~' && s[i] != '"' && s[i] != '\\'
  }

  lemma {:induction false} PlainIsWritten(s: string)
    requires IsPlain(s)
    ensures Written(s) == s
  {
    if s != "" {
      PlainIsWritten(s[1..]);
      assert s == [s[0]] + s[1..];
    }
  }

  /** Where nothing is escaped the cursor is never too long. */
  lemma PlainRoundTrip(k: Key)
    requires IsPlain(k.updatedAt) && 0 < |k.updatedAt| <= 64 && IsJobId(k.id)
    ensures DecodeCursor(EncodeCursor(k)) == Some(k)
  {
    assert IsPlain(k.id) by {
      assert forall i :: 0 <= i < 4 ==> k.id[i] == k.id[..4][i];
    }
    PlainIsWritten(k.updatedAt);
    PlainIsWritten(k.id);
    Base64.RoundTrip(ToBytes(Dump(k)));
    CursorRoundTrip(k);
  }
}
