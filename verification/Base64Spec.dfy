/** Base64 as section 4 of RFC 4648 describes it, on bit strings: no triples, no shifts, no
    lookup table and no buffers. The codec of src/crypto_utils.c is proved against these
    functions in Base64.dfy. */
module Base64Spec {
  import opened Bits

  type byte = v: int | 0 <= v < 256

  // ---------------------------------------------------------------- the alphabet

  const PAD: char := '='

  /** The characters of table 1 of RFC 4648. */
  predicate IsCode(c: char) {
    'A' <= c <= 'Z' || 'a' <= c <= 'z' || '0' <= c <= '9' || c == '+' || c == '/'
  }

  function CharOf(v: nat): (c: char)
    requires v < 64
    ensures IsCode(c) && c != PAD
  {
    if v < 26 then 'A' + v as char
    else if v < 52 then 'a' + (v - 26) as char
    else if v < 62 then '0' + (v - 52) as char
    else if v == 62 then '+' else '/'
  }

  /** The six-bit value of a character. */
  function ValueOf(c: char): (v: nat)
    requires IsCode(c)
    ensures v < 64
  {
    if c == '/' then 63
    else if c == '+' then 62
    else if c <= '9' then (c - '0') as int + 52
    else if c <= 'Z' then (c - 'A') as int
    else (c - 'a') as int + 26
  }

  lemma CharOfValueOf(c: char)
    requires IsCode(c)
    ensures CharOf(ValueOf(c)) == c
  {
  }

  lemma ValueOfCharOf(v: nat)
    requires v < 64
    ensures ValueOf(CharOf(v)) == v
  {
  }

  predicate IsSextets(vs: seq<nat>) {
    forall i :: 0 <= i < |vs| ==> vs[i] < 64
  }

  function Chars(vs: seq<nat>): (s: string)
    requires IsSextets(vs)
    ensures |s| == |vs|
  {
    seq(|vs|, i requires 0 <= i < |vs| => CharOf(vs[i]))
  }

  predicate OverAlphabet(s: string) {
    forall i :: 0 <= i < |s| ==> s[i] == PAD || IsCode(s[i])
  }

  /** A character's six bits; the pad character counts as six zero bits. */
  function SextetOf(c: char): (v: nat)
    requires c == PAD || IsCode(c)
    ensures v < 64
  {
    if c == PAD then 0 else ValueOf(c)
  }

  function Sextets(s: string): (vs: seq<nat>)
    requires OverAlphabet(s)
    ensures |vs| == |s| && IsSextets(vs)
  {
    seq(|s|, i requires 0 <= i < |s| => SextetOf(s[i]))
  }

  // ---------------------------------------------------------------- encoding

  function PadCount(n: nat): (p: nat)
    ensures p <= 2 && (n + p) % 3 == 0
  {
    (3 - n % 3) % 3
  }

  function EncodedLength(n: nat): nat {
    (n + 2) / 3 * 4
  }

  function Pads(n: nat): string {
    Repeat(PAD, n)
  }

  /** The input bits, right-padded with zeros to a whole number of six-bit groups. */
  function PadBits(bits: seq<bool>): (r: seq<bool>)
    ensures |r| % 6 == 0 && bits <= r
  {
    bits + Zeros((6 - |bits| % 6) % 6)
  }

  function SextetsOfBits(bits: seq<bool>, n: nat): (vs: seq<nat>)
    requires |bits| == 6 * n
    ensures |vs| == n && IsSextets(vs)
  {
    assert Pow2(6) == 64;
    Chunks(bits, 6, n)
  }

  function Encode(data: seq<byte>): string {
    var padded := PadBits(Flatten(data, 8));
    Chars(SextetsOfBits(padded, |padded| / 6)) + Pads(PadCount(|data|))
  }

  // ---------------------------------------------------------------- decoding

  /** Three bytes for each four characters, less one for each of the last two that is a pad. */
  function DecodedLength(s: string): (n: nat)
    requires s != "" && |s| % 4 == 0
    ensures |s| / 4 * 3 - 2 <= n <= |s| / 4 * 3
  {
    |s| / 4 * 3 - (if s[|s| - 1] == PAD then 1 else 0) - (if s[|s| - 2] == PAD then 1 else 0)
  }

  function BytesOfBits(bits: seq<bool>, n: nat): (data: seq<byte>)
    requires |bits| == 8 * n
    ensures |data| == n
  {
    assert Pow2(8) == 256;
    Chunks(bits, 8, n)
  }

  /** The first bytes of the concatenated sextets. */
  function Decode(s: string): (data: seq<byte>)
    requires s != "" && |s| % 4 == 0 && OverAlphabet(s)
    ensures |data| == DecodedLength(s)
  {
    FlattenLength(Sextets(s), 6);
    BytesOfBits(Flatten(Sextets(s), 6)[..8 * DecodedLength(s)], DecodedLength(s))
  }

  // ---------------------------------------------------------------- canonical form

  /** `s` ends in exactly `p` pads, and the bits of the last data character that carry no
      data are zero (section 3.5 of RFC 4648). */
  predicate CanonicalWith(s: string, p: nat)
    requires p <= 2
  {
    && |s| % 4 == 0
    && p <= |s|
    && (forall i :: 0 <= i < |s| - p ==> IsCode(s[i]))
    && (forall i :: |s| - p <= i < |s| ==> s[i] == PAD)
    && (p == 1 ==> ValueOf(s[|s| - 2]) % 4 == 0)
    && (p == 2 ==> ValueOf(s[|s| - 3]) % 16 == 0)
  }

  predicate Canonical(s: string) {
    CanonicalWith(s, 0) || CanonicalWith(s, 1) || CanonicalWith(s, 2)
  }
}
