/** The URL-safe base64 of section 5 of RFC 4648, with its padding left off. */
module Base64 {
  import opened Options

  type Byte = b: int | 0 <= b < 256
  type Sextet = v: int | 0 <= v < 64

  function Letter(v: Sextet): char {
    if v < 26 then (v + 'A' as int) as char
    else if v < 52 then (v - 26 + 'a' as int) as char
    else if v < 62 then (v - 52 + '0' as int) as char
    else if v == 62 then '-'
    else '_'
  }

  function SextetOf(c: char): Option<Sextet> {
    if 'A' <= c <= 'Z' then Some(c as int - 'A' as int)
    else if 'a' <= c <= 'z' then Some(c as int - 'a' as int + 26)
    else if '0' <= c <= '9' then Some(c as int - '0' as int + 52)
    else if c == '-' then Some(62)
    else if c == '_' then Some(63)
    else None
  }

  function One(a: Byte): string {
    [Letter(a / 4), Letter(a % 4 * 16)]
  }

  function Two(a: Byte, b: Byte): string {
    [Letter(a / 4), Letter(a % 4 * 16 + b / 16), Letter(b % 16 * 4)]
  }

  function Three(a: Byte, b: Byte, c: Byte): string {
    [Letter(a / 4), Letter(a % 4 * 16 + b / 16), Letter(b % 16 * 4 + c / 64), Letter(c % 64)]
  }

  /** Three bytes as four letters; one or two bytes at the end are padded. */
  function EncodePadded(bytes: seq<Byte>): string {
    if bytes == [] then ""
    else if |bytes| == 1 then One(bytes[0]) + "=="
    else if |bytes| == 2 then Two(bytes[0], bytes[1]) + "="
    else Three(bytes[0], bytes[1], bytes[2]) + EncodePadded(bytes[3..])
  }

  /** The bytes of padded text, or nothing when it is not such text. */
  function DecodePadded(text: string): Option<seq<Byte>> {
    if text == "" then Some([])
    else if |text| < 4 then None
    else
      var v, w := SextetOf(text[0]), SextetOf(text[1]);
      if v.None? || w.None? then None
      else if |text| == 4 && text[3] == '=' then
        if text[2] == '=' then Some([v.value * 4 + w.value / 16])
        else
          var x := SextetOf(text[2]);
          if x.None? then None else Some([v.value * 4 + w.value / 16, w.value % 16 * 16 + x.value / 4])
      else
        var x, y := SextetOf(text[2]), SextetOf(text[3]);
        if x.None? || y.None? then None
        else
          var rest := DecodePadded(text[4..]);
          if rest.None? then None
          else
            var three := [v.value * 4 + w.value / 16, w.value % 16 * 16 + x.value / 4, x.value % 4 * 64 + y.value];
            Some(three + rest.value)
  }

  function WithoutPadding(text: string): string {
    if text != "" && text[|text| - 1] == '=' then WithoutPadding(text[..|text| - 1]) else text
  }

  function Padding(length: nat): string {
    seq((4 - length % 4) % 4, _ => '=')
  }

  function Encode(bytes: seq<Byte>): string {
    WithoutPadding(EncodePadded(bytes))
  }

  function Decode(text: string): Option<seq<Byte>> {
    DecodePadded(text + Padding(|text|))
  }

  lemma SplitAndJoined(a: Byte, b: Byte, c: Byte)
    ensures a / 4 * 4 + (a % 4 * 16 + b / 16) / 16 == a
    ensures (a % 4 * 16 + b / 16) % 16 * 16 + (b % 16 * 4 + c / 64) / 4 == b
    ensures (b % 16 * 4 + c / 64) % 4 * 64 + c % 64 == c
  {
  }

  /** The letters of a text, without its padding. */
  function Letters(bytes: seq<Byte>): string {
    if bytes == [] then ""
    else if |bytes| == 1 then One(bytes[0])
    else if |bytes| == 2 then Two(bytes[0], bytes[1])
    else Three(bytes[0], bytes[1], bytes[2]) + Letters(bytes[3..])
  }

  lemma LetterIsNoPadding(v: Sextet)
    ensures Letter(v) != '='
  {
  }

  /** Padded text is letters, and then at most two signs of padding, to a multiple of four. */
  lemma {:induction false} PaddedShape(bytes: seq<Byte>)
    ensures EncodePadded(bytes) == Letters(bytes) + Padding(|Letters(bytes)|)
    ensures Letters(bytes) != "" ==> Letters(bytes)[|Letters(bytes)| - 1] != '='
    ensures 3 * |Letters(bytes)| <= 4 * |bytes| + 2
  {
    if |bytes| == 1 {
      LetterIsNoPadding(bytes[0] % 4 * 16);
      assert Padding(2) == "==";
    } else if |bytes| == 2 {
      LetterIsNoPadding(bytes[1] % 16 * 4);
      assert Padding(3) == "=";
    } else if |bytes| >= 3 {
      PaddedShape(bytes[3..]);
      LetterIsNoPadding(bytes[2] % 64);
      LettersAppend(Three(bytes[0], bytes[1], bytes[2]), Letters(bytes[3..]));
    }
  }

  lemma LettersAppend(group: string, letters: string)
    requires |group| == 4
    ensures group + (letters + Padding(|letters|)) == (group + letters) + Padding(|group + letters|)
  {
  }

  lemma {:induction false} PaddingComesOff(text: string, letters: string, n: nat)
    requires |letters| > 0 ==> letters[|letters| - 1] != '='
    requires |text| == |letters| + n && text[..|letters|] == letters
    requires forall k :: |letters| <= k < |text| ==> text[k] == '='
    ensures WithoutPadding(text) == letters
    decreases n
  {
    if n > 0 {
      PaddingComesOff(text[..|text| - 1], letters, n - 1);
    } else {
      assert text == letters;
    }
  }

  lemma EncodeIsLetters(bytes: seq<Byte>)
    ensures Encode(bytes) == Letters(bytes)
  {
    PaddedShape(bytes);
    PaddingComesOff(EncodePadded(bytes), Letters(bytes), |Padding(|Letters(bytes)|)|);
  }

  // ----- What letters stand for

  /** Table 2 of RFC 4648, by code point: A to Z, a to z, 0 to 9, minus and underline; any other
      character stands for nothing. */
  ghost predicate StandsFor(c: char, v: int) {
    var n := c as int;
    || (65 <= n <= 90 && v == n - 65)
    || (97 <= n <= 122 && v == n - 71)
    || (48 <= n <= 57 && v == n + 4)
    || (n == 45 && v == 62)
    || (n == 95 && v == 63)
  }

  lemma SextetExact(c: char, v: Sextet)
    ensures SextetOf(c) == Some(v) <==> StandsFor(c, v)
  {
  }

  /** Digits of base 64, most significant first. */
  ghost predicate Digits(s: string, d: seq<int>) {
    |s| == |d| && forall i :: 0 <= i < |s| ==> StandsFor(s[i], d[i])
  }

  /** Four digits of base 64 are the number that three of base 256 are. */
  ghost predicate AreThree(v: int, w: int, x: int, y: int, a: int, b: int, c: int) {
    262144 * v + 4096 * w + 64 * x + y == 65536 * a + 256 * b + c
  }

  /** Three digits carry two bytes and two spare bits. */
  ghost predicate AreTwo(v: int, w: int, x: int, a: int, b: int) {
    4 * (256 * a + b) <= 4096 * v + 64 * w + x < 4 * (256 * a + b) + 4
  }

  /** Two digits carry a byte and four spare bits. */
  ghost predicate AreOne(v: int, w: int, a: int) {
    16 * a <= 64 * v + w < 16 * a + 16
  }

  ghost predicate Carry(d: seq<int>, bytes: seq<Byte>) {
    if |bytes| == 0 then d == []
    else if |bytes| == 1 then |d| == 2 && AreOne(d[0], d[1], bytes[0])
    else if |bytes| == 2 then |d| == 3 && AreTwo(d[0], d[1], d[2], bytes[0], bytes[1])
    else
      && |d| >= 4 && AreThree(d[0], d[1], d[2], d[3], bytes[0], bytes[1], bytes[2])
      && Carry(d[4..], bytes[3..])
  }

  lemma SameThree(a: Byte, b: Byte, c: Byte, k: Byte, l: Byte, m: Byte)
    requires 65536 * a + 256 * b + c == 65536 * k + 256 * l + m
    ensures a == k && b == l && c == m
  {
  }

  lemma FourAsThree(v: Sextet, w: Sextet, x: Sextet, y: Sextet, a: Byte, b: Byte, c: Byte)
    ensures AreThree(v, w, x, y, a, b, c) <==>
            v * 4 + w / 16 == a && w % 16 * 16 + x / 4 == b && x % 4 * 64 + y == c
  {
    var k: Byte, l: Byte, m: Byte := v * 4 + w / 16, w % 16 * 16 + x / 4, x % 4 * 64 + y;
    assert AreThree(v, w, x, y, k, l, m) by {
      assert w == w / 16 * 16 + w % 16 && x == x / 4 * 4 + x % 4;
    }
    if AreThree(v, w, x, y, a, b, c) {
      SameThree(k, l, m, a, b, c);
    }
  }

  lemma ThreeAsTwo(v: Sextet, w: Sextet, x: Sextet, a: Byte, b: Byte)
    ensures AreTwo(v, w, x, a, b) <==> v * 4 + w / 16 == a && w % 16 * 16 + x / 4 == b
  {
    assert w == w / 16 * 16 + w % 16 && x == x / 4 * 4 + x % 4;
  }

  /** A group of four characters is read as its digits. */
  lemma FourAreDigits(s: string, d: seq<int>)
    requires |s| == 4 && Digits(s, d)
    ensures forall i :: 0 <= i < 4 ==> 0 <= d[i] < 64 && SextetOf(s[i]) == Some(d[i]) && s[i] != '='
  {
  }

  lemma GroupDecoded(text: string, v: Sextet, w: Sextet, x: Sextet, y: Sextet, bytes: seq<Byte>)
    requires |text| >= 4 && SextetOf(text[0]) == Some(v) && SextetOf(text[1]) == Some(w)
    requires SextetOf(text[2]) == Some(x) && SextetOf(text[3]) == Some(y)
    ensures DecodePadded(text) == Some(bytes) <==>
            && |bytes| >= 3 && DecodePadded(text[4..]) == Some(bytes[3..])
            && bytes[0] == v * 4 + w / 16 && bytes[1] == w % 16 * 16 + x / 4 && bytes[2] == x % 4 * 64 + y
  {
    assert |bytes| >= 3 ==> bytes == [bytes[0], bytes[1], bytes[2]] + bytes[3..];
  }

  lemma GroupIsThree(text: string, d: seq<int>, bytes: seq<Byte>)
    requires |text| >= 4 && |d| >= 4 && Digits(text[..4], d[..4])
    ensures DecodePadded(text) == Some(bytes) <==>
            && |bytes| >= 3 && DecodePadded(text[4..]) == Some(bytes[3..])
            && AreThree(d[0], d[1], d[2], d[3], bytes[0], bytes[1], bytes[2])
  {
    FourAreDigits(text[..4], d[..4]);
    assert forall i :: 0 <= i < 4 ==> text[..4][i] == text[i] && d[..4][i] == d[i];
    GroupDecoded(text, d[0], d[1], d[2], d[3], bytes);
    if |bytes| >= 3 {
      FourAsThree(d[0], d[1], d[2], d[3], bytes[0], bytes[1], bytes[2]);
    }
  }

  lemma TailIsTwo(text: string, d: seq<int>, bytes: seq<Byte>)
    requires |text| == 4 && |d| == 3 && Digits(text[..3], d) && text[3] == '='
    ensures DecodePadded(text) == Some(bytes) <==>
            |bytes| == 2 && AreTwo(d[0], d[1], d[2], bytes[0], bytes[1])
  {
    FourAreDigits(text[..3] + "A", d + [0]);
    assert forall i :: 0 <= i < 3 ==> (text[..3] + "A")[i] == text[i] && (d + [0])[i] == d[i];
    if |bytes| == 2 {
      ThreeAsTwo(d[0], d[1], d[2], bytes[0], bytes[1]);
      assert bytes == [bytes[0], bytes[1]];
    }
  }

  lemma TailIsOne(text: string, d: seq<int>, bytes: seq<Byte>)
    requires |text| == 4 && |d| == 2 && Digits(text[..2], d) && text[2] == text[3] == '='
    ensures DecodePadded(text) == Some(bytes) <==>
            |bytes| == 1 && AreOne(d[0], d[1], bytes[0])
  {
    FourAreDigits(text[..2] + "AA", d + [0, 0]);
    assert forall i :: 0 <= i < 2 ==> (text[..2] + "AA")[i] == text[i] && (d + [0, 0])[i] == d[i];
    assert |bytes| == 1 ==> bytes == [bytes[0]];
  }

  /** Letters that carry the bytes, and at most as many signs of padding as the last of `q` groups
      of four is short of. */
  ghost predicate IsText(text: string, d: seq<int>, q: nat, bytes: seq<Byte>) {
    && |d| <= |text| <= 4 * q < |d| + 4 && Digits(text[..|d|], d) && Carry(d, bytes)
    && forall k :: |d| <= k < |text| ==> text[k] == '='
  }

  lemma DigitsFour(text: string, d: seq<int>)
    requires 4 <= |d| <= |text|
    ensures Digits(text[..|d|], d) <==> Digits(text[..4], d[..4]) && Digits(text[4..][..|d| - 4], d[4..])
  {
    var s, rest := text[..|d|], text[4..][..|d| - 4];
    assert forall i :: 4 <= i < |d| ==> s[i] == rest[i - 4] && d[i] == d[4..][i - 4];
    assert forall i :: 0 <= i < |d| - 4 ==> rest[i] == s[i + 4] && d[4..][i] == d[i + 4];
    assert forall i :: 0 <= i < 4 ==> text[..4][i] == s[i] && d[..4][i] == d[i];
  }

  /** The first group of four, and the rest. */
  lemma TextFour(text: string, d: seq<int>, q: nat, bytes: seq<Byte>)
    requires |d| >= 4 && |text| >= 4 && q >= 1
    ensures IsText(text, d, q, bytes) <==>
            && Digits(text[..4], d[..4]) && |bytes| >= 3
            && AreThree(d[0], d[1], d[2], d[3], bytes[0], bytes[1], bytes[2])
            && IsText(text[4..], d[4..], q - 1, bytes[3..])
  {
    if |d| <= |text| {
      DigitsFour(text, d);
      assert forall k :: |d| <= k < |text| ==> text[k] == text[4..][k - 4];
      assert forall k :: |d| - 4 <= k < |text| - 4 ==> text[4..][k] == text[k + 4];
    }
  }

  lemma LastDecoded(text: string, d: seq<int>, q: nat, bytes: seq<Byte>)
    requires |d| < 4 && |text| == 4 * q && IsText(text, d, q, bytes)
    ensures DecodePadded(text) == Some(bytes)
  {
    if |d| == 2 {
      TailIsOne(text, d, bytes);
    } else if |d| == 3 {
      TailIsTwo(text, d, bytes);
    }
  }

  /** Of padded text, what it carries is what is decoded... */
  lemma {:induction false} CarriedIsDecoded(text: string, d: seq<int>, q: nat, bytes: seq<Byte>)
    requires |text| == 4 * q && IsText(text, d, q, bytes)
    ensures DecodePadded(text) == Some(bytes)
  {
    if |d| < 4 {
      LastDecoded(text, d, q, bytes);
    } else {
      TextFour(text, d, q, bytes);
      CarriedIsDecoded(text[4..], d[4..], q - 1, bytes[3..]);
      GroupIsThree(text, d, bytes);
    }
  }

  lemma SomeDigits(text: string, n: nat) returns (d: seq<int>)
    requires n <= |text| && forall i :: 0 <= i < n ==> SextetOf(text[i]).Some?
    ensures |d| == n && Digits(text[..n], d)
  {
    d := seq(n, i requires 0 <= i < n => SextetOf(text[i]).value);
    forall i | 0 <= i < n ensures StandsFor(text[i], d[i]) {
      SextetExact(text[i], d[i]);
    }
  }

  lemma LastCarried(text: string, bytes: seq<Byte>) returns (d: seq<int>)
    requires |text| == 4 && text[3] == '=' && DecodePadded(text) == Some(bytes)
    ensures IsText(text, d, 1, bytes)
  {
    if text[2] == '=' {
      d := SomeDigits(text, 2);
      TailIsOne(text, d, bytes);
    } else {
      d := SomeDigits(text, 3);
      TailIsTwo(text, d, bytes);
    }
  }

  lemma FirstCarried(text: string, bytes: seq<Byte>) returns (four: seq<int>)
    requires |text| >= 4 && !(|text| == 4 && text[3] == '=') && DecodePadded(text) == Some(bytes)
    ensures |four| == 4 && Digits(text[..4], four) && |bytes| >= 3
    ensures AreThree(four[0], four[1], four[2], four[3], bytes[0], bytes[1], bytes[2])
    ensures DecodePadded(text[4..]) == Some(bytes[3..])
  {
    four := SomeDigits(text, 4);
    assert four[..4] == four;
    GroupIsThree(text, four, bytes);
  }

  lemma TextJoined(text: string, four: seq<int>, more: seq<int>, q: nat, bytes: seq<Byte>)
    requires |text| >= 4 && |four| == 4 && |bytes| >= 3 && Digits(text[..4], four) && q >= 1
    requires AreThree(four[0], four[1], four[2], four[3], bytes[0], bytes[1], bytes[2])
    requires IsText(text[4..], more, q - 1, bytes[3..])
    ensures IsText(text, four + more, q, bytes)
  {
    var d := four + more;
    assert d[..4] == four && d[4..] == more;
    TextFour(text, d, q, bytes);
  }

  /** ...and only that. */
  lemma {:induction false} DecodedIsCarried(text: string, q: nat, bytes: seq<Byte>) returns (d: seq<int>)
    requires |text| == 4 * q && DecodePadded(text) == Some(bytes)
    ensures IsText(text, d, q, bytes)
  {
    if q == 0 {
      d := [];
    } else if q == 1 && text[3] == '=' {
      d := LastCarried(text, bytes);
    } else {
      var four := FirstCarried(text, bytes);
      var more := DecodedIsCarried(text[4..], q - 1, bytes[3..]);
      TextJoined(text, four, more, q, bytes);
      d := four + more;
    }
  }

  /** Padding that is added makes no difference. */
  lemma PaddedText(text: string, padding: string, d: seq<int>, q: nat, bytes: seq<Byte>)
    requires |text + padding| == 4 * q && |padding| < 4 && forall k :: 0 <= k < |padding| ==> padding[k] == '='
    ensures IsText(text, d, q, bytes) <==> IsText(text + padding, d, q, bytes)
  {
    var padded := text + padding;
    if |d| <= |text| {
      assert padded[..|d|] == text[..|d|];
      assert forall k :: |d| <= k < |text| ==> text[k] == padded[k];
    } else if |d| <= |padded| {
      assert padded[..|d|][|text|] == padded[|text|] == '=';
    }
  }

  /** Decoding gives exactly the bytes that the letters carry, with all of the padding, some of it
      or none. */
  lemma DecodeExact(text: string, bytes: seq<Byte>)
    ensures Decode(text) == Some(bytes) <==> exists d, q: nat :: IsText(text, d, q, bytes)
  {
    var padding := Padding(|text|);
    var p := (|text| + 3) / 4;
    assert |text + padding| == 4 * p;
    if d, q: nat :| IsText(text, d, q, bytes) {
      assert q == p;
      PaddedText(text, padding, d, p, bytes);
      CarriedIsDecoded(text + padding, d, p, bytes);
    }
    if Decode(text) == Some(bytes) {
      var d := DecodedIsCarried(text + padding, p, bytes);
      PaddedText(text, padding, d, p, bytes);
    }
  }

  /** Two or four bits that are spare are zero. */
  ghost predicate SpareAreZero(d: seq<int>) {
    if |d| == 2 then d[1] % 16 == 0
    else if |d| == 3 then d[2] % 4 == 0
    else if |d| >= 4 then SpareAreZero(d[4..])
    else true
  }

  lemma LetterExact(v: Sextet)
    ensures StandsFor(Letter(v), v)
  {
  }

  lemma LastEncoded(bytes: seq<Byte>) returns (d: seq<int>)
    requires |bytes| < 3
    ensures Digits(Letters(bytes), d) && Carry(d, bytes) && SpareAreZero(d)
  {
    d := [];
    if |bytes| == 1 {
      var a := bytes[0];
      LetterExact(a / 4);
      LetterExact(a % 4 * 16);
      d := [a / 4, a % 4 * 16];
    } else if |bytes| == 2 {
      var a, b := bytes[0], bytes[1];
      LetterExact(a / 4);
      LetterExact(a % 4 * 16 + b / 16);
      LetterExact(b % 16 * 4);
      d := [a / 4, a % 4 * 16 + b / 16, b % 16 * 4];
      ThreeAsTwo(a / 4, a % 4 * 16 + b / 16, b % 16 * 4, a, b);
    }
  }

  lemma ThreeEncoded(a: Byte, b: Byte, c: Byte) returns (d: seq<int>)
    ensures |d| == 4 && Digits(Three(a, b, c), d) && AreThree(d[0], d[1], d[2], d[3], a, b, c)
  {
    LetterExact(a / 4);
    LetterExact(a % 4 * 16 + b / 16);
    LetterExact(b % 16 * 4 + c / 64);
    LetterExact(c % 64);
    SplitAndJoined(a, b, c);
    FourAsThree(a / 4, a % 4 * 16 + b / 16, b % 16 * 4 + c / 64, c % 64, a, b, c);
    d := [a / 4, a % 4 * 16 + b / 16, b % 16 * 4 + c / 64, c % 64];
  }

  lemma EncodedJoined(bytes: seq<Byte>, four: seq<int>, more: seq<int>)
    requires |bytes| >= 3 && |four| == 4 && Digits(Three(bytes[0], bytes[1], bytes[2]), four)
    requires AreThree(four[0], four[1], four[2], four[3], bytes[0], bytes[1], bytes[2])
    requires Digits(Letters(bytes[3..]), more) && Carry(more, bytes[3..]) && SpareAreZero(more)
    ensures var d := four + more;
            Digits(Letters(bytes), d) && Carry(d, bytes) && SpareAreZero(d)
  {
    JoinDigits(Three(bytes[0], bytes[1], bytes[2]), four, Letters(bytes[3..]), more);
    assert (four + more)[4..] == more;
  }

  lemma JoinDigits(s: string, d: seq<int>, t: string, e: seq<int>)
    requires Digits(s, d) && Digits(t, e)
    ensures Digits(s + t, d + e)
  {
  }

  lemma {:induction false} LettersExact(bytes: seq<Byte>) returns (d: seq<int>)
    ensures Digits(Letters(bytes), d) && Carry(d, bytes) && SpareAreZero(d)
  {
    if |bytes| < 3 {
      d := LastEncoded(bytes);
    } else {
      var four := ThreeEncoded(bytes[0], bytes[1], bytes[2]);
      var more := LettersExact(bytes[3..]);
      EncodedJoined(bytes, four, more);
      d := four + more;
    }
  }

  /** Encoding gives letters that carry the bytes, with spare bits that are zero. */
  lemma EncodeExact(bytes: seq<Byte>) returns (d: seq<int>)
    ensures Digits(Encode(bytes), d) && Carry(d, bytes) && SpareAreZero(d)
  {
    d := LettersExact(bytes);
    EncodeIsLetters(bytes);
  }

  // ----- There and back

  lemma LettersAreText(bytes: seq<Byte>) returns (d: seq<int>)
    ensures IsText(Letters(bytes), d, (|Letters(bytes)| + 3) / 4, bytes)
  {
    d := LettersExact(bytes);
    assert Letters(bytes)[..|d|] == Letters(bytes);
  }

  /** Decoding undoes encoding, the padding being worked out again from the length... */
  lemma RoundTrip(bytes: seq<Byte>)
    ensures Decode(Encode(bytes)) == Some(bytes)
    ensures 3 * |Encode(bytes)| <= 4 * |bytes| + 2
  {
    EncodeIsLetters(bytes);
    PaddedShape(bytes);
    var d := LettersAreText(bytes);
    DecodeExact(Encode(bytes), bytes);
  }

  /** ...and so it does when the padding is left on. */
  lemma PaddedRoundTrip(bytes: seq<Byte>)
    ensures DecodePadded(EncodePadded(bytes)) == Some(bytes)
  {
    RoundTrip(bytes);
    EncodeIsLetters(bytes);
    PaddedShape(bytes);
  }
}
