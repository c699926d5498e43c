/** Bytes, C strings and the small vocabulary the other modules share. */
module Bytes {

  type Byte = x: int | 0 <= x < 256

  /** A C string is modelled by the bytes before its terminating NUL. */
  type Text = seq<Byte>

  datatype Option<+T> = None | Some(value: T)

  const NUL: Byte := 0
  const NEWLINE: Byte := 10
  const CARRIAGE: Byte := 13
  const BACKSLASH: Byte := 92
  const SLASH: Byte := 47

  predicate IsDigit(b: Byte) {
    48 <= b <= 57
  }

  /** The bytes of an ASCII text. */
  function Spelled(text: string): (t: Text)
    requires forall i :: 0 <= i < |text| ==> text[i] < 128 as char
    ensures |t| == |text|
  {
    seq(|text|, i requires 0 <= i < |text| => text[i] as int)
  }

  function Min(a: int, b: int): int {
    if a < b then a else b
  }

  /** The last `n` elements, or all of them. */
  function Last<T>(s: seq<T>, n: nat): seq<T> {
    s[if |s| < n then 0 else |s| - n..]
  }

  lemma Regroup<T>(a: seq<T>, b: seq<T>, c: seq<T>)
    ensures (a + b) + c == a + (b + c)
  {
  }

  lemma Middle<T>(a: seq<T>, b: seq<T>, c: seq<T>)
    ensures (a + b + c)[|a|..|a| + |b|] == b
  {
  }

  lemma Ends<T>(a: seq<T>, b: seq<T>, c: seq<T>)
    ensures (a + b + c)[..|a|] == a && (a + b + c)[|a| + |b|..] == c
  {
  }

  lemma SliceOfSlice<T>(s: seq<T>, lo: nat, hi: nat, a: nat, b: nat)
    requires lo <= hi <= |s| && a <= b <= hi - lo
    ensures s[lo..hi][a..b] == s[lo + a..lo + b]
  {
    forall k | 0 <= k < b - a ensures s[lo..hi][a..b][k] == s[lo + a..lo + b][k] {
    }
  }

  // ----- FNV-1a, the hash of the command cache and the journal's checksum -----

  function Xor(a: nat, b: nat, bits: nat): nat {
    if bits == 0 then 0 else (a + b) % 2 + 2 * Xor(a / 2, b / 2, bits - 1)
  }

  function FnvStep(hash: nat, b: Byte): (h: nat)
    ensures h < 0x1_0000_0000
  {
    ((hash - hash % 256 + Xor(hash % 256, b, 8)) * 16777619) % 0x1_0000_0000
  }

  function FnvFrom(hash: nat, s: Text): (h: nat)
    ensures hash < 0x1_0000_0000 ==> h < 0x1_0000_0000
    decreases |s|
  {
    if s == [] then hash else FnvFrom(FnvStep(hash, s[0]), s[1..])
  }

  function Fnv(s: Text): (h: nat)
    ensures h < 0x1_0000_0000
  {
    FnvFrom(2166136261, s)
  }
}
