/** JSON strings: the grammar of section 7 of RFC 8259, the reader that accepts it,
    and the writer the reader inverts. */
module JsonString {
  import opened Bytes

  const SCAN_CAP: nat := 1048576
  const QUOTE: Byte := 34
  const LETTER_B: Byte := 98
  const LETTER_F: Byte := 102
  const LETTER_N: Byte := 110
  const LETTER_R: Byte := 114
  const LETTER_T: Byte := 116
  const LETTER_U: Byte := 117
  const ZERO: Byte := 48

  // ----- hexadecimal -----

  /** `hexadecimal_value`; -1 for a byte that is no digit. */
  function HexValue(b: Byte): (v: int)
    ensures -1 <= v < 16
  {
    if 48 <= b <= 57 then b - 48
    else if 97 <= b <= 102 then b - 87
    else if 65 <= b <= 70 then b - 55
    else -1
  }

  predicate IsQuad(digits: Text) {
    |digits| == 4 && forall i :: 0 <= i < 4 ==> HexValue(digits[i]) >= 0
  }

  function QuadValue(digits: Text): (v: nat)
    requires IsQuad(digits)
    ensures v <= 0xFFFF
  {
    ((HexValue(digits[0]) * 16 + HexValue(digits[1])) * 16 + HexValue(digits[2])) * 16 + HexValue(digits[3])
  }

  function HexDigit(v: nat): Byte
    requires v < 16
  {
    if v < 10 then 48 + v else 87 + v
  }

  // ----- UTF-8 -----

  predicate IsScalar(value: nat) {
    value <= 0x10FFFF && !(0xD800 <= value <= 0xDFFF)
  }

  function Lead(mark: nat, bits: nat): Byte
    requires mark + bits < 256
  {
    mark + bits
  }

  function Trail(value: nat): Byte {
    0x80 + value % 64
  }

  /** `write_utf8`. */
  function Utf8(value: nat): (bytes: Text)
    requires IsScalar(value)
    ensures 1 <= |bytes| <= 4
  {
    if value <= 0x7F then [value]
    else if value <= 0x7FF then [Lead(0xC0, value / 64), Trail(value)]
    else if value <= 0xFFFF then [Lead(0xE0, value / 64 / 64), Trail(value / 64), Trail(value)]
    else [Lead(0xF0, value / 64 / 64 / 64), Trail(value / 64 / 64), Trail(value / 64), Trail(value)]
  }

  /** The scalar at the front of some UTF-8, by its lead byte. */
  function FirstScalar(s: Text): int {
    if |s| >= 1 && s[0] < 0x80 then At(s, 0)
    else if |s| >= 2 && 0xC0 <= s[0] < 0xE0 then (At(s, 0) - 0xC0) * 64 + At(s, 1) - 0x80
    else if |s| >= 3 && 0xE0 <= s[0] < 0xF0 then
      ((At(s, 0) - 0xE0) * 64 + At(s, 1) - 0x80) * 64 + At(s, 2) - 0x80
    else if |s| >= 4 && 0xF0 <= s[0] then
      (((At(s, 0) - 0xF0) * 64 + At(s, 1) - 0x80) * 64 + At(s, 2) - 0x80) * 64 + At(s, 3) - 0x80
    else -1
  }

  function At(s: Text, i: nat): int
    requires i < |s|
  {
    s[i]
  }

  /** Different scalars get different bytes, and no encoding is a prefix of another. */
  lemma Utf8IsDecodable(value: nat, rest: Text)
    requires IsScalar(value)
    ensures FirstScalar(Utf8(value) + rest) == value
  {
    var a, b, c := value / 64, value / 64 / 64, value / 64 / 64 / 64;
    assert value == a * 64 + value % 64 && a == b * 64 + a % 64 && b == c * 64 + b % 64;
  }

  // ----- the grammar -----

  /** One character of a JSON string as it is written. */
  datatype Unit =
    | Raw(byte: Byte)
    | Short(letter: Byte)
    | Point(digits: Text)
    | Surrogates(high: Text, low: Text)

  predicate IsShort(letter: Byte) {
    letter in [QUOTE, BACKSLASH, SLASH, LETTER_B, LETTER_F, LETTER_N, LETTER_R, LETTER_T]
  }

  function ShortValue(letter: Byte): Byte {
    if letter == LETTER_N then 10
    else if letter == LETTER_R then 13
    else if letter == LETTER_T then 9
    else if letter == LETTER_B then 8
    else if letter == LETTER_F then 12
    else letter
  }

  predicate Legal(u: Unit) {
    match u
    case Raw(byte) => byte >= 0x20 && byte != QUOTE && byte != BACKSLASH
    case Short(letter) => IsShort(letter)
    case Point(digits) => IsQuad(digits) && IsScalar(QuadValue(digits))
    case Surrogates(high, low) =>
      && IsQuad(high) && 0xD800 <= QuadValue(high) <= 0xDBFF
      && IsQuad(low) && 0xDC00 <= QuadValue(low) <= 0xDFFF
  }

  function PrintUnit(u: Unit): (s: Text)
    ensures s != []
  {
    match u
    case Raw(byte) => [byte]
    case Short(letter) => [BACKSLASH, letter]
    case Point(digits) => [BACKSLASH, LETTER_U] + digits
    case Surrogates(high, low) => [BACKSLASH, LETTER_U] + high + ([BACKSLASH, LETTER_U] + low)
  }

  function Joined(high: nat, low: nat): nat
    requires 0xD800 <= high <= 0xDBFF && 0xDC00 <= low <= 0xDFFF
  {
    0x10000 + (high - 0xD800) * 1024 + (low - 0xDC00)
  }

  function MeaningOf(u: Unit): (bytes: Text)
    requires Legal(u)
    ensures bytes != []
  {
    match u
    case Raw(byte) => [byte]
    case Short(letter) => [ShortValue(letter)]
    case Point(digits) => Utf8(QuadValue(digits))
    case Surrogates(high, low) => Utf8(Joined(QuadValue(high), QuadValue(low)))
  }

  predicate AllLegal(units: seq<Unit>) {
    forall i :: 0 <= i < |units| ==> Legal(units[i])
  }

  function Print(units: seq<Unit>): Text {
    if units == [] then [] else PrintUnit(units[0]) + Print(units[1..])
  }

  function Meaning(units: seq<Unit>): Text
    requires AllLegal(units)
  {
    if units == [] then [] else MeaningOf(units[0]) + Meaning(units[1..])
  }

  // ----- the reader -----

  datatype Taken = Taken(bytes: Text, length: nat)

  /** `decode_unicode_escape`, behind the `u`. */
  function TakeUnicode(s: Text): (t: Option<Taken>)
    ensures t.Some? ==> t.value.length <= |s| && 1 <= |t.value.bytes| <= 4
  {
    if |s| < 4 || !IsQuad(s[..4]) then None
    else
      var value := QuadValue(s[..4]);
      if 0xD800 <= value <= 0xDBFF then
        if |s| < 10 || s[4] != BACKSLASH || s[5] != LETTER_U || !IsQuad(s[6..10]) then None
        else
          var low := QuadValue(s[6..10]);
          if low < 0xDC00 || low > 0xDFFF then None else Some(Taken(Utf8(Joined(value, low)), 10))
      else if IsScalar(value) then Some(Taken(Utf8(value), 4))
      else None
  }

  /** `decode_escape`, behind the backslash. */
  function TakeEscape(s: Text): (t: Option<Taken>)
    ensures t.Some? ==> 0 < t.value.length <= |s| && 1 <= |t.value.bytes| <= 4
  {
    if s == [] then None
    else if s[0] == LETTER_U then
      var t := TakeUnicode(s[1..]);
      if t.None? then None else Some(Taken(t.value.bytes, t.value.length + 1))
    else if IsShort(s[0]) then Some(Taken([ShortValue(s[0])], 1))
    else None
  }

  /** The loop of `gsh_json_get_string`, behind the opening quote. */
  function Read(s: Text, used: nat, capacity: nat): Option<Text>
    decreases |s|
  {
    if s == [] then None
    else if s[0] == QUOTE then Some([])
    else
      var t := if s[0] == BACKSLASH then TakeEscape(s[1..])
               else if s[0] < 0x20 then None
               else Some(Taken([s[0]], 0));
      if t.None? || used + |t.value.bytes| >= capacity then None
      else
        var rest := Read(s[1 + t.value.length..], used + |t.value.bytes|, capacity);
        if rest.None? then None else Some(t.value.bytes + rest.value)
  }

  /** One turn of the loop, given what it takes. */
  lemma ReadTaken(s: Text, t: Taken, used: nat, capacity: nat)
    requires s != [] && s[0] != QUOTE && t.length < |s|
    requires if s[0] == BACKSLASH then TakeEscape(s[1..]) == Some(t) else s[0] >= 0x20 && t == Taken([s[0]], 0)
    ensures Read(s, used, capacity) ==
      if used + |t.bytes| >= capacity then None
      else
        var more := Read(s[1 + t.length..], used + |t.bytes|, capacity);
        if more.None? then None else Some(t.bytes + more.value)
  {
    hide TakeEscape;
  }

  /** What one character contributes. */
  lemma ReadUnit(u: Unit, rest: Text, used: nat, capacity: nat)
    requires Legal(u)
    ensures Read(PrintUnit(u) + rest, used, capacity) ==
      if used + |MeaningOf(u)| >= capacity then None
      else
        var more := Read(rest, used + |MeaningOf(u)|, capacity);
        if more.None? then None else Some(MeaningOf(u) + more.value)
  {
    hide Read, TakeEscape;
    var s := PrintUnit(u) + rest;
    Behind(PrintUnit(u), rest);
    if !u.Raw? {
      EscapeTaken(u, rest);
    }
    hide PrintUnit;
    ReadTaken(s, Taken(MeaningOf(u), |PrintUnit(u)| - 1), used, capacity);
  }

  lemma Behind(a: Text, b: Text)
    requires a != []
    ensures (a + b)[0] == a[0] && (a + b)[1..] == a[1..] + b && (a + b)[|a|..] == b
  {
  }

  lemma EscapeTaken(u: Unit, rest: Text)
    requires Legal(u) && !u.Raw?
    ensures PrintUnit(u)[0] == BACKSLASH
    ensures TakeEscape(PrintUnit(u)[1..] + rest) == Some(Taken(MeaningOf(u), |PrintUnit(u)| - 1))
  {
    hide QuadValue, HexValue, Utf8, TakeUnicode;
    if u.Short? {
      assert PrintUnit(u)[1..] == [u.letter];
    } else if u.Point? {
      PointTaken(u, rest);
      assert PrintUnit(u)[1..] == [LETTER_U] + u.digits;
    } else {
      SurrogatesTaken(u, rest);
      assert PrintUnit(u)[1..] + rest == [LETTER_U] + (u.high + ([BACKSLASH, LETTER_U] + u.low) + rest);
    }
  }

  lemma PointTaken(u: Unit, rest: Text)
    requires Legal(u) && u.Point?
    ensures TakeEscape([LETTER_U] + u.digits + rest) == Some(Taken(MeaningOf(u), 5))
  {
    hide QuadValue, HexValue, Utf8;
    var s := [LETTER_U] + u.digits + rest;
    assert s[1..] == u.digits + rest && s[1..][..4] == u.digits;
  }

  lemma SurrogatesTaken(u: Unit, rest: Text)
    requires Legal(u) && u.Surrogates?
    ensures TakeEscape([LETTER_U] + (u.high + ([BACKSLASH, LETTER_U] + u.low) + rest)) == Some(Taken(MeaningOf(u), 11))
  {
    hide QuadValue, HexValue, Utf8;
    var t := u.high + ([BACKSLASH, LETTER_U] + u.low) + rest;
    assert ([LETTER_U] + t)[1..] == t;
    assert t[..4] == u.high && t[6..10] == u.low;
  }

  /** Legal strings read as what they mean when that fits, whatever follows. */
  lemma {:induction false} ReadPrinted(units: seq<Unit>, tail: Text, used: nat, capacity: nat)
    requires AllLegal(units) && used < capacity
    ensures Read(Print(units) + ([QUOTE] + tail), used, capacity) ==
            if used + |Meaning(units)| < capacity then Some(Meaning(units)) else None
    decreases |units|
  {
    hide PrintUnit, MeaningOf, Legal;
    if units == [] {
      assert Print(units) + ([QUOTE] + tail) == [QUOTE] + tail;
    } else {
      hide Read;
      var u, rest := units[0], Print(units[1..]) + ([QUOTE] + tail);
      Regroup(PrintUnit(u), Print(units[1..]), [QUOTE] + tail);
      ReadUnit(u, rest, used, capacity);
      if used + |MeaningOf(u)| < capacity {
        ReadPrinted(units[1..], tail, used + |MeaningOf(u)|, capacity);
      }
    }
  }

  /** The character whose escape the reader takes. */
  lemma EscapeUnit(s: Text) returns (u: Unit)
    requires TakeEscape(s).Some?
    ensures Legal(u) && MeaningOf(u) == TakeEscape(s).value.bytes
    ensures [BACKSLASH] + s == PrintUnit(u) + s[TakeEscape(s).value.length..]
  {
    hide QuadValue, HexValue, Utf8;
    if s[0] != LETTER_U {
      u := Short(s[0]);
    } else {
      var t := s[1..];
      if 0xD800 <= QuadValue(t[..4]) <= 0xDBFF {
        u := Surrogates(t[..4], t[6..10]);
      } else {
        u := Point(t[..4]);
      }
    }
  }

  /** The character at the front of an accepted string. */
  lemma FirstUnit(s: Text, used: nat, capacity: nat) returns (u: Unit, rest: Text)
    requires Read(s, used, capacity).Some? && s[0] != QUOTE
    ensures Legal(u) && s == PrintUnit(u) + rest && used + |MeaningOf(u)| < capacity
  {
    hide TakeEscape;
    if s[0] != BACKSLASH {
      u, rest := Raw(s[0]), s[1..];
    } else {
      u := EscapeUnit(s[1..]);
      hide Legal, PrintUnit, MeaningOf;
      rest := s[1..][TakeEscape(s[1..]).value.length..];
      assert s == [BACKSLASH] + s[1..];
    }
  }

  lemma OneMoreUnit(u: Unit, more: seq<Unit>)
    requires Legal(u) && AllLegal(more)
    ensures AllLegal([u] + more)
    ensures Print([u] + more) == PrintUnit(u) + Print(more) && Meaning([u] + more) == MeaningOf(u) + Meaning(more)
  {
    hide Legal, PrintUnit, MeaningOf;
    assert ([u] + more)[1..] == more;
  }

  lemma ReadEnds(s: Text, used: nat, capacity: nat)
    requires Read(s, used, capacity).Some?
    ensures s != [] && AllLegal([]) && Print([]) == [] && Meaning([]) == []
    ensures s[0] == QUOTE ==> Read(s, used, capacity) == Some([]) && s == [] + ([QUOTE] + s[1..])
  {
  }

  /** The reader accepts nothing else. */
  lemma {:induction false} ReadOnlyLegal(s: Text, used: nat, capacity: nat) returns (units: seq<Unit>, tail: Text)
    requires Read(s, used, capacity).Some? && used < capacity
    ensures AllLegal(units) && s == Print(units) + ([QUOTE] + tail)
    ensures Read(s, used, capacity).value == Meaning(units) && used + |Meaning(units)| < capacity
    decreases |s|
  {
    hide Read, PrintUnit, MeaningOf, Legal, Print, Meaning, AllLegal;
    ReadEnds(s, used, capacity);
    if s[0] == QUOTE {
      units, tail := [], s[1..];
    } else {
      var u, rest := FirstUnit(s, used, capacity);
      ReadUnit(u, rest, used, capacity);
      var more, end := ReadOnlyLegal(rest, used + |MeaningOf(u)|, capacity);
      OneMoreUnit(u, more);
      units, tail := [u] + more, end;
      Regroup(PrintUnit(u), Print(more), [QUOTE] + tail);
    }
  }

  ghost predicate Spells(s: Text, value: Text) {
    exists units, tail :: AllLegal(units) && s == Print(units) + ([QUOTE] + tail) && value == Meaning(units)
  }

  /** The one thing section 7 of RFC 8259 allows and the reader refuses: an escaped
      surrogate without its partner. */
  lemma LoneSurrogateIsRefused(digits: Text, rest: Text, used: nat, capacity: nat)
    requires IsQuad(digits) && 0xD800 <= QuadValue(digits) <= 0xDFFF
    requires QuadValue(digits) <= 0xDBFF ==>
      !(|rest| >= 6 && rest[0] == BACKSLASH && rest[1] == LETTER_U && IsQuad(rest[2..6])
        && 0xDC00 <= QuadValue(rest[2..6]) <= 0xDFFF)
    ensures Read([BACKSLASH, LETTER_U] + digits + rest, used, capacity) == None
  {
    hide QuadValue, HexValue, Utf8;
    var s := [BACKSLASH, LETTER_U] + digits + rest;
    var t := digits + rest;
    assert s[1..][1..] == t && t[..4] == digits;
    if |rest| >= 6 {
      assert t[4] == rest[0] && t[5] == rest[1] && t[6..10] == rest[2..6];
    }
  }

  /** The reader decides the strings of section 7 of RFC 8259 with paired surrogates
      only, over bytes: every byte from 0x20 on but the quote and the backslash stands for
      itself, whether or not it is part of valid UTF-8.  It gives `value` exactly when the
      text starts with a string of that meaning, and the meaning fits. */
  lemma ReadIsGrammar(s: Text, capacity: nat, value: Text)
    requires capacity > 0
    ensures Read(s, 0, capacity) == Some(value) <==> Spells(s, value) && |value| < capacity
  {
    hide Read, Print, Meaning, AllLegal;
    if Read(s, 0, capacity) == Some(value) {
      var units, tail := ReadOnlyLegal(s, 0, capacity);
    }
    if Spells(s, value) && |value| < capacity {
      var units, tail :| AllLegal(units) && s == Print(units) + ([QUOTE] + tail) && value == Meaning(units);
      ReadPrinted(units, tail, 0, capacity);
    }
  }

  // ----- the writer -----

  /** `write_escape`, and bytes that need no escape. */
  function EncodeByte(b: Byte): (s: Text)
    ensures 1 <= |s| <= 6
  {
    if b == QUOTE || b == BACKSLASH then [BACKSLASH, b]
    else if b == 10 then [BACKSLASH, LETTER_N]
    else if b == 13 then [BACKSLASH, LETTER_R]
    else if b == 9 then [BACKSLASH, LETTER_T]
    else if b < 0x20 then [BACKSLASH, LETTER_U, ZERO, ZERO, HexDigit(b / 16), HexDigit(b % 16)]
    else [b]
  }

  function EncodeBody(text: Text): Text {
    if text == [] then [] else EncodeByte(text[0]) + EncodeBody(text[1..])
  }

  /** `gsh_json_write_string`. */
  function EncodeString(text: Text): Text {
    [QUOTE] + EncodeBody(text) + [QUOTE]
  }

  function UnitOf(b: Byte): Unit {
    if b == QUOTE || b == BACKSLASH then Short(b)
    else if b == 10 then Short(LETTER_N)
    else if b == 13 then Short(LETTER_R)
    else if b == 9 then Short(LETTER_T)
    else if b < 0x20 then Point([ZERO, ZERO, HexDigit(b / 16), HexDigit(b % 16)])
    else Raw(b)
  }

  lemma UnitOfIs(b: Byte)
    ensures Legal(UnitOf(b)) && PrintUnit(UnitOf(b)) == EncodeByte(b) && MeaningOf(UnitOf(b)) == [b]
  {
    if b < 0x20 && b != 10 && b != 13 && b != 9 {
      var digits := [ZERO, ZERO, HexDigit(b / 16), HexDigit(b % 16)];
      assert HexValue(digits[2]) == b / 16 && HexValue(digits[3]) == b % 16;
      assert IsQuad(digits) && QuadValue(digits) == b;
    }
  }

  function UnitsOf(text: Text): (units: seq<Unit>)
  {
    if text == [] then [] else [UnitOf(text[0])] + UnitsOf(text[1..])
  }

  /** The writer writes legal strings, and writes each byte string as one that means it. */
  lemma {:induction false} EncodingSpells(text: Text)
    ensures AllLegal(UnitsOf(text)) && Print(UnitsOf(text)) == EncodeBody(text) && Meaning(UnitsOf(text)) == text
  {
    hide Legal, PrintUnit, MeaningOf, UnitOf, EncodeByte;
    if text != [] {
      UnitOfIs(text[0]);
      EncodingSpells(text[1..]);
      assert UnitsOf(text)[1..] == UnitsOf(text[1..]);
    }
  }

  /** Reading what was written gives back the same bytes, whatever follows, exactly
      when they fit. */
  lemma WrittenReadsBack(text: Text, tail: Text, capacity: nat)
    requires capacity > 0
    ensures Read((EncodeString(text) + tail)[1..], 0, capacity) == if |text| < capacity then Some(text) else None
  {
    hide Read, Print, Meaning, UnitsOf, EncodeBody, AllLegal;
    EncodingSpells(text);
    ReadPrinted(UnitsOf(text), tail, 0, capacity);
    assert (EncodeString(text) + tail)[1..] == EncodeBody(text) + ([QUOTE] + tail);
  }

  /** The C string in a buffer. */
  function CString(buffer: Text): (s: Text) {
    if buffer == [] || buffer[0] == NUL then [] else [buffer[0]] + CString(buffer[1..])
  }

  /** The caller gets no length, so it sees the whole string exactly when no byte of
      it is NUL. */
  lemma {:induction false} SeenByCaller(text: Text, rest: Text)
    ensures CString(text + ([NUL] + rest)) == text <==> NUL !in text
  {
    if text == [] {
      assert text + ([NUL] + rest) == [NUL] + rest;
    } else {
      assert (text + ([NUL] + rest))[1..] == text[1..] + ([NUL] + rest);
      SeenByCaller(text[1..], rest);
    }
  }
}
