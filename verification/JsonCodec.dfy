/** The imperative JSON codec: a bounded writer that fails for good, and a reader
    that decodes into a fixed buffer. */
module JsonCodec {
  import opened Bytes
  import opened JsonString

  class Writer {
    const data: array<Byte>
    var length: nat
    var failed: bool

    ghost predicate Valid()
      reads this, data
    {
      if data.Length == 0 then failed && length == 0 else length < data.Length && data[length] == NUL
    }

    ghost function Contents(): Text
      reads this, data
      requires length <= data.Length
    {
      data[..length]
    }

    /** `gsh_json_writer_initialize`. */
    constructor (capacity: nat)
      ensures Valid() && Contents() == [] && fresh(data) && data.Length == capacity
      ensures failed <==> capacity == 0
    {
      data := new Byte[capacity](_ => NUL);
      length, failed := 0, capacity == 0;
    }

    /** `gsh_json_write_bytes`: all of the bytes, or none and a failed writer. */
    method WriteBytes(text: Text) returns (ok: bool)
      requires Valid()
      modifies this, data
      ensures Valid() && failed == !ok
      ensures ok <==> !old(failed) && |old(Contents())| + |text| < data.Length
      ensures Contents() == old(Contents()) + (if ok then text else [])
    {
      if failed || |text| >= data.Length - length {
        failed := true;
        return false;
      }
      ghost var before := Contents();
      for k := 0 to |text|
        invariant length == old(length) && !failed
        invariant data[..length] == before && data[length..length + k] == text[..k]
      {
        data[length + k] := text[k];
      }
      length := length + |text|;
      data[length] := NUL;
      assert data[..length] == before + text;
      return true;
    }

    /** `write_escape`, or the byte itself. */
    method WriteByte(byte: Byte) returns (ok: bool)
      requires Valid()
      modifies this, data
      ensures Valid() && failed == !ok
      ensures ok <==> !old(failed) && |old(Contents())| + |EncodeByte(byte)| < data.Length
      ensures Contents() == old(Contents()) + (if ok then EncodeByte(byte) else [])
    {
      if byte >= 0x20 && byte != QUOTE && byte != BACKSLASH {
        ok := WriteBytes([byte]);
      } else if byte == QUOTE || byte == BACKSLASH {
        ok := WriteBytes([BACKSLASH, byte]);
      } else if byte == 10 {
        ok := WriteBytes([BACKSLASH, LETTER_N]);
      } else if byte == 13 {
        ok := WriteBytes([BACKSLASH, LETTER_R]);
      } else if byte == 9 {
        ok := WriteBytes([BACKSLASH, LETTER_T]);
      } else {
        ok := WriteBytes([BACKSLASH, LETTER_U, ZERO, ZERO, HexDigit(byte / 16), HexDigit(byte % 16)]);
      }
    }

    /** `gsh_json_write_string`: succeeds exactly when the whole string and a NUL fit,
        and never disturbs what was there. */
    method WriteString(text: Text) returns (ok: bool)
      requires Valid()
      modifies this, data
      ensures Valid() && failed == !ok
      ensures ok <==> !old(failed) && |text| <= SCAN_CAP && |old(Contents())| + |EncodeString(text)| < data.Length
      ensures ok ==> Contents() == old(Contents()) + EncodeString(text)
      ensures |old(Contents())| <= length && data[..|old(Contents())|] == old(Contents())
    {
      hide EncodeBody, EncodeByte;
      ghost var before := Contents();
      ok := WriteBytes([QUOTE]);
      if !ok {
        return false;
      }
      BodyStart(text);
      var index := 0;
      while index < |text| && index < SCAN_CAP
        invariant index <= |text| && index <= SCAN_CAP && Valid() && !failed
        invariant Contents() == before + ([QUOTE] + EncodeBody(text[..index]))
      {
        BodyStep(text, index);
        Regroup(before, [QUOTE] + EncodeBody(text[..index]), EncodeByte(text[index]));
        Regroup([QUOTE], EncodeBody(text[..index]), EncodeByte(text[index]));
        Prefixes(before, [QUOTE] + EncodeBody(text[..index]));
        ok := WriteByte(text[index]);
        if !ok {
          return false;
        }
        index := index + 1;
      }
      Prefixes(before, [QUOTE] + EncodeBody(text[..index]));
      if index != |text| {
        failed := true;
        return false;
      }
      assert text[..index] == text;
      Regroup(before, [QUOTE] + EncodeBody(text), [QUOTE]);
      ok := WriteBytes([QUOTE]);
    }
  }

  lemma Prefixes(a: Text, b: Text)
    ensures (a + b)[..|a|] == a
  {
  }

  lemma BodyStart(text: Text)
    ensures EncodeBody(text[..0]) == []
  {
  }

  lemma {:induction false} BodyConcat(a: Text, b: Text)
    ensures EncodeBody(a + b) == EncodeBody(a) + EncodeBody(b)
  {
    hide EncodeByte;
    if a == [] {
      assert a + b == b;
    } else {
      assert (a + b)[1..] == a[1..] + b;
      BodyConcat(a[1..], b);
      Regroup(EncodeByte(a[0]), EncodeBody(a[1..]), EncodeBody(b));
    }
  }

  /** The encoding so far is a prefix of the whole. */
  lemma BodyStep(text: Text, index: nat)
    requires index < |text|
    ensures EncodeBody(text[..index + 1]) == EncodeBody(text[..index]) + EncodeByte(text[index])
    ensures |EncodeBody(text[..index + 1])| <= |EncodeBody(text)|
  {
    hide EncodeByte;
    BodyConcat(text[..index], [text[index]]);
    assert text[..index + 1] == text[..index] + [text[index]];
    assert EncodeBody([text[index]]) == EncodeByte(text[index]) + EncodeBody([]);
    BodyConcat(text[..index + 1], text[index + 1..]);
    assert text == text[..index + 1] + text[index + 1..];
  }

  // ----- the reader -----

  /** `decode_hex_quad`. */
  method DecodeHexQuad(json: Text, index: nat) returns (value: Option<nat>)
    requires index <= |json|
    ensures value == if index + 4 <= |json| && IsQuad(json[index..index + 4])
                     then Some(QuadValue(json[index..index + 4])) else None
  {
    if index + 4 > |json| {
      return None;
    }
    ghost var digits := json[index..index + 4];
    var total: nat, digit := 0, 0;
    while digit < 4
      invariant digit <= 4 && forall k :: 0 <= k < digit ==> HexValue(digits[k]) >= 0
      invariant digit == 0 ==> total == 0
      invariant digit == 1 ==> total == HexValue(digits[0])
      invariant digit == 2 ==> total == HexValue(digits[0]) * 16 + HexValue(digits[1])
      invariant digit == 3 ==> total == (HexValue(digits[0]) * 16 + HexValue(digits[1])) * 16 + HexValue(digits[2])
      invariant digit == 4 ==> IsQuad(digits) && total == QuadValue(digits)
    {
      var hexadecimal := HexValue(json[index + digit]);
      if hexadecimal < 0 {
        assert HexValue(digits[digit]) < 0;
        return None;
      }
      total, digit := total * 16 + hexadecimal, digit + 1;
    }
    return Some(total);
  }

  /** Append decoded bytes while a NUL still fits behind them. */
  method PutBytes(bytes: Text, output: array<Byte>, used: nat) returns (end: Option<nat>)
    requires used < output.Length
    modifies output
    ensures end == if used + |bytes| >= output.Length then None else Some(used + |bytes|)
    ensures output[..used] == old(output[..used])
    ensures end.Some? ==> output[..end.value] == old(output[..used]) + bytes
  {
    if used + |bytes| >= output.Length {
      return None;
    }
    for k := 0 to |bytes|
      invariant output[..used] == old(output[..used]) && output[used..used + k] == bytes[..k]
    {
      output[used + k] := bytes[k];
    }
    return Some(used + |bytes|);
  }

  /** `decode_unicode_escape`, up to the bytes it hands to the UTF-8 writer. */
  method DecodeUnicode(json: Text, index: nat) returns (taken: Option<Taken>)
    requires index <= |json|
    ensures taken == TakeUnicode(json[index..])
  {
    hide IsQuad, QuadValue, Utf8;
    QuadBehind(json, index);
    var value := DecodeHexQuad(json, index);
    if value.None? {
      return None;
    }
    if 0xD800 <= value.value <= 0xDBFF {
      var behind := index + 4;
      if behind + 6 > |json| || json[behind] != BACKSLASH || json[behind + 1] != LETTER_U {
        return None;
      }
      assert json[index..][4] == json[behind] && json[index..][5] == json[behind + 1];
      assert json[index..][6..10] == json[behind + 2..behind + 6];
      var low := DecodeHexQuad(json, behind + 2);
      if low.None? || low.value < 0xDC00 || low.value > 0xDFFF {
        return None;
      }
      return Some(Taken(Utf8(Joined(value.value, low.value)), 10));
    }
    if !IsScalar(value.value) {
      return None;
    }
    return Some(Taken(Utf8(value.value), 4));
  }

  lemma QuadBehind(json: Text, index: nat)
    requires index <= |json|
    ensures index + 4 <= |json| ==> json[index..][..4] == json[index..index + 4]
  {
  }

  /** `decode_escape`, behind the backslash. */
  method DecodeEscape(json: Text, index: nat) returns (taken: Option<Taken>)
    requires index <= |json|
    ensures taken == TakeEscape(json[index..])
  {
    hide TakeUnicode;
    if index >= |json| {
      return None;
    }
    var letter := json[index];
    assert json[index..][0] == letter && json[index..][1..] == json[index + 1..];
    if letter == LETTER_U {
      var t := DecodeUnicode(json, index + 1);
      return if t.None? then None else Some(Taken(t.value.bytes, t.value.length + 1));
    }
    if !IsShort(letter) {
      return None;
    }
    return Some(Taken([ShortValue(letter)], 1));
  }

  lemma ReadStep(json: Text, index: nat, used: nat, capacity: nat)
    requires index < |json|
    ensures Read(json[index..], used, capacity) ==
      if json[index] == QUOTE then Some([])
      else
        var t := if json[index] == BACKSLASH then TakeEscape(json[index + 1..])
                 else if json[index] < 0x20 then None
                 else Some(Taken([json[index]], 0));
        if t.None? || used + |t.value.bytes| >= capacity then None
        else
          var rest := Read(json[index + 1 + t.value.length..], used + |t.value.bytes|, capacity);
          if rest.None? then None else Some(t.value.bytes + rest.value)
  {
    hide TakeEscape;
    var s := json[index..];
    assert s[1..] == json[index + 1..];
    var t := if s[0] == BACKSLASH then TakeEscape(s[1..]) else Some(Taken([s[0]], 0));
    if t.Some? {
      assert s[1 + t.value.length..] == json[index + 1 + t.value.length..];
    }
  }

  /** What is decoded so far, completed by what is still to come. */
  function Completed(so: Text, more: Option<Text>): Option<Text> {
    if more.None? then None else Some(so + more.value)
  }

  /** The loop of `gsh_json_get_string`, from the opening quote of the value: the buffer
      gets the string and a NUL, or the call fails. */
  method DecodeString(json: Text, begin: nat, output: array<Byte>) returns (ok: bool)
    requires begin < |json|
    modifies output
    ensures ok <==> output.Length > 0 && json[begin] == QUOTE && Read(json[begin + 1..], 0, output.Length).Some?
    ensures ok ==> var s := Read(json[begin + 1..], 0, output.Length).value;
                   |s| < output.Length && output[..|s| + 1] == s + [NUL]
  {
    hide Read, TakeEscape;
    if output.Length == 0 || json[begin] != QUOTE {
      return false;
    }
    var index, used: nat := begin + 1, 0;
    ghost var whole := Read(json[begin + 1..], 0, output.Length);
    assert whole.Some? ==> output[..0] + whole.value == whole.value;
    while index < |json| && json[index] != QUOTE
      invariant begin < index <= |json| && used < output.Length
      invariant whole == Completed(output[..used], Read(json[index..], used, output.Length))
      decreases |json| - index
    {
      ReadStep(json, index, used, output.Length);
      ghost var so := output[..used];
      var byte := json[index];
      var taken;
      if byte == BACKSLASH {
        taken := DecodeEscape(json, index + 1);
      } else {
        taken := if byte < 0x20 then None else Some(Taken([byte], 0));
      }
      if taken.None? {
        return false;
      }
      var end := PutBytes(taken.value.bytes, output, used);
      if end.None? {
        return false;
      }
      ghost var more := Read(json[index + 1 + taken.value.length..], end.value, output.Length);
      if more.Some? {
        Regroup(so, taken.value.bytes, more.value);
      }
      index, used := index + 1 + taken.value.length, end.value;
    }
    if index >= |json| {
      ReadNothing(used, output.Length);
      assert json[index..] == [];
      return false;
    }
    ReadStep(json, index, used, output.Length);
    assert output[..used] + [] == output[..used];
    output[used] := NUL;
    return true;
  }

  lemma ReadNothing(used: nat, capacity: nat)
    ensures Read([], used, capacity) == None
  {
  }
}
