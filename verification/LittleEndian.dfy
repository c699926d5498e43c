/** Little-endian numbers of a fixed width. */
module LittleEndian {
  import opened Bytes

  function Power256(n: nat): (p: nat)
    ensures p > 0
  {
    if n == 0 then 1 else 256 * Power256(n - 1)
  }

  function Encode(value: nat, width: nat): (s: Text)
    ensures |s| == width
  {
    if width == 0 then [] else [value % 256] + Encode(value / 256, width - 1)
  }

  function Decode(s: Text): nat {
    if s == [] then 0 else s[0] + 256 * Decode(s[1..])
  }

  lemma {:induction false} DecodeEncode(value: nat, width: nat)
    requires value < Power256(width)
    ensures Decode(Encode(value, width)) == value
  {
    if width > 0 {
      DecodeEncode(value / 256, width - 1);
    }
  }

  lemma {:induction false} EncodeDecode(s: Text)
    ensures Decode(s) < Power256(|s|) && Encode(Decode(s), |s|) == s
  {
    if s != [] {
      EncodeDecode(s[1..]);
      assert Decode(s) % 256 == s[0] && Decode(s) / 256 == Decode(s[1..]);
    }
  }

  /** The value shifted down by whole bytes. */
  function Shifted(value: nat, bytes: nat): nat {
    if bytes == 0 then value else Shifted(value / 256, bytes - 1)
  }

  /** Byte `i` is the low byte of the value shifted by `i` bytes. */
  lemma {:induction false} EncodeAt(value: nat, width: nat, i: nat)
    requires i < width
    ensures Encode(value, width)[i] == Shifted(value, i) % 256
  {
    if i > 0 {
      EncodeAt(value / 256, width - 1, i - 1);
    }
  }

  lemma Widths()
    ensures Power256(4) == 0x1_0000_0000 && Power256(8) == 0x1_0000_0000_0000_0000
  {
    assert Power256(1) == 256 && Power256(2) == 65536 && Power256(3) == 0x100_0000;
    assert Power256(5) == 256 * Power256(4) && Power256(6) == 256 * Power256(5) && Power256(7) == 256 * Power256(6);
  }

  /** `encode_u32` and `encode_u64`: byte `index` is the value shifted by `index` bytes. */
  method Write(output: array<Byte>, at: nat, value: nat, width: nat)
    requires at + width <= output.Length
    modifies output
    ensures output[..] == old(output[..at]) + Encode(value, width) + old(output[at + width..])
  {
    hide Encode;
    var rest := value;
    ghost var done: Text := [];
    EncodeNothing(value);
    for index := 0 to width
      invariant |done| == index && Encode(value, width) == done + Encode(rest, width - index)
      invariant forall k :: 0 <= k < output.Length ==>
        output[k] == if at <= k < at + index then done[k - at] else old(output[k])
    {
      EncodeStep(rest, width - index);
      Regroup(done, [rest % 256], Encode(rest / 256, width - index - 1));
      output[at + index] := rest % 256;
      done := done + [rest % 256];
      rest := rest / 256;
    }
    EncodeNothing(rest);
    assert done == Encode(value, width);
  }

  lemma EncodeNothing(value: nat)
    ensures Encode(value, 0) == []
  {
  }

  lemma EncodeStep(value: nat, width: nat)
    requires width > 0
    ensures Encode(value, width) == [value % 256] + Encode(value / 256, width - 1)
  {
  }

  /** `decode_u32` and `decode_u64`, from the most significant byte down. */
  method Read(input: Text) returns (value: nat)
    ensures value == Decode(input)
  {
    value := 0;
    var index := |input|;
    assert input[|input|..] == [];
    while index > 0
      invariant 0 <= index <= |input| && value == Decode(input[index..])
    {
      assert input[index - 1..][1..] == input[index..];
      index := index - 1;
      value := input[index] + 256 * value;
    }
    assert input[0..] == input;
  }
}
