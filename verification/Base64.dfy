/** The codec of src/crypto_utils.c, lines 103-175: shifts and masks on 32-bit words, a lookup
    table, in-place buffers, a second pass that overwrites the padding.
    Shifts and masks on unsigned words are written as multiplication, division and remainder by
    powers of two, and every 32-bit or `size_t` result is reduced explicitly. */
module Base64 {
  import opened Bits
  import opened Base64Spec
  import opened Base64Theorems
  import opened CStrings

  type uint32 = x: int | 0 <= x < 0x1_0000_0000

  /** What an unsigned 32-bit computation keeps of its exact result. */
  function U32(x: nat): (r: uint32)
    ensures x < 0x1_0000_0000 ==> r == x
  {
    x % 0x1_0000_0000
  }

  type SizeBound = n: nat | 0xFFFF <= n witness 0xFFFF

  /** The largest `size_t`; any value C allows, so the results hold on every target. */
  const SIZE_MAX: SizeBound

  function SizeT(x: nat): nat {
    x % (SIZE_MAX + 1)
  }

  lemma SizeFits(x: nat)
    requires x <= SIZE_MAX
    ensures SizeT(x) == x
  {
  }

  /** A `size_t *` argument. */
  class SizeRef {
    var value: nat
    constructor (v: nat)
      ensures value == v
    {
      value := v;
    }
  }

  // ---------------------------------------------------------------- the lookup table

  const BASE64_CHARS: string := "ABCDEFGHIJKLMNOPQRSTUVWXYZ" + "abcdefghijklmnopqrstuvwxyz" + "0123456789" + "+/"

  /** What `strchr(s, c) - s` yields for a character of `s`: the first position holding it. */
  function StrChr(s: string, c: char): (i: nat)
    requires c in s
    ensures i < |s| && s[i] == c
    ensures forall k :: 0 <= k < i ==> s[k] != c
  {
    if s[0] == c then 0 else 1 + StrChr(s[1..], c)
  }

  lemma TableLength()
    ensures |BASE64_CHARS| == 64
  {
  }

  /** The table lists the alphabet of RFC 4648 in order of value... */
  lemma TableIsAlphabet(v: nat)
    requires v < 64
    ensures |BASE64_CHARS| == 64 && BASE64_CHARS[v] == CharOf(v)
  {
  }

  /** ... and searching it inverts it. */
  lemma StrChrIsValueOf(c: char)
    requires IsCode(c)
    ensures c in BASE64_CHARS && StrChr(BASE64_CHARS, c) == ValueOf(c)
  {
    var v := ValueOf(c);
    CharOfValueOf(c);
    TableIsAlphabet(v);
    var i := StrChr(BASE64_CHARS, c);
    TableIsAlphabet(i);
    ValueOfCharOf(i);
  }

  // ---------------------------------------------------------------- one block

  lemma OneNumber(x: nat, w: nat)
    ensures ToBits(x, w) == Flatten([x], w)
  {
    FlattenCons(x, [], w);
  }

  /** Shifting in one more number appends its bits. */
  lemma ShiftIn(v: nat, vs: seq<nat>, m: nat, x: nat, w: nat, base: nat, t: nat, ws: seq<nat>)
    requires ToBits(v, m) == Flatten(vs, w)
    requires base == Pow2(w) && x < base && t == v * base + x && ws == vs + [x]
    ensures ToBits(t, m + w) == Flatten(ws, w)
  {
    ToBitsConcat(v, m, x, w, t);
    FlattenConcat(vs, [x], w);
    OneNumber(x, w);
  }

  /** Cutting 24 bits at bytes or at sextets is the same bit string. */
  lemma TripleBits(a: nat, b: nat, c: nat, t: nat)
    requires a < 256 && b < 256 && c < 256
    requires t == a * 0x10000 + b * 0x100 + c
    ensures ToBits(t, 24) == Flatten([a, b, c], 8)
  {
    hide Flatten, ToBits;
    assert Pow2(8) == 256;
    OneNumber(a, 8);
    ShiftIn(a, [a], 8, b, 8, 256, a * 256 + b, [a, b]);
    ShiftIn(a * 256 + b, [a, b], 16, c, 8, 256, t, [a, b, c]);
  }

  lemma SextetBits(a: nat, b: nat, c: nat, d: nat, t: nat)
    requires a < 64 && b < 64 && c < 64 && d < 64
    requires t == a * 0x40000 + b * 0x1000 + c * 0x40 + d
    ensures ToBits(t, 24) == Flatten([a, b, c, d], 6)
  {
    hide Flatten, ToBits;
    assert Pow2(6) == 64;
    OneNumber(a, 6);
    ShiftIn(a, [a], 6, b, 6, 64, a * 64 + b, [a, b]);
    ShiftIn(a * 64 + b, [a, b], 12, c, 6, 64, a * 0x1000 + b * 64 + c, [a, b, c]);
    ShiftIn(a * 0x1000 + b * 64 + c, [a, b, c], 18, d, 6, 64, t, [a, b, c, d]);
  }

  /** A 24-bit word is the sum of its shifted bytes... */
  lemma ByteParts(t: nat)
    requires t < 0x100_0000
    ensures t == (t / 0x10000 % 0x100) * 0x10000 + (t / 0x100 % 0x100) * 0x100 + t % 0x100
  {
    var q := t / 0x100;
    assert t / 0x10000 == q / 0x100;
  }

  /** ... and of its shifted sextets. */
  lemma SextetParts(t: nat)
    requires t < 0x100_0000
    ensures t == (t / 0x40000 % 0x40) * 0x40000 + (t / 0x1000 % 0x40) * 0x1000 + (t / 0x40 % 0x40) * 0x40 + t % 0x40
  {
    var q1 := t / 0x40;
    var q2 := q1 / 0x40;
    var q3 := q2 / 0x40;
    assert t / 0x1000 == q2;
    assert t / 0x40000 == q3;
  }

  /** `(a << 16) + (b << 8) + c`, which never wraps. */
  function PackBytes(a: byte, b: byte, c: byte): (t: uint32)
    ensures t == a * 0x10000 + b * 0x100 + c < 0x100_0000
  {
    U32(U32(U32(a * 0x10000) + U32(b * 0x100)) + c)
  }

  /** `(a << 18) + (b << 12) + (c << 6) + d`, which never wraps on sextets. */
  function PackSextets(a: uint32, b: uint32, c: uint32, d: uint32): (t: uint32)
    ensures a < 64 && b < 64 && c < 64 && d < 64 ==> t == a * 0x40000 + b * 0x1000 + c * 0x40 + d < 0x100_0000
  {
    U32(U32(U32(U32(a * 0x40000) + U32(b * 0x1000)) + U32(c * 0x40)) + d)
  }

  /** The four shift-and-mask lookups of the encoder's loop body. */
  function TripleChars(t: uint32): string {
    TableLength();
    [BASE64_CHARS[t / 0x40000 % 0x40], BASE64_CHARS[t / 0x1000 % 0x40],
     BASE64_CHARS[t / 0x40 % 0x40], BASE64_CHARS[t % 0x40]]
  }

  lemma TableChars(vs: seq<nat>)
    requires |vs| == 4 && IsSextets(vs)
    ensures |BASE64_CHARS| == 64
    ensures Chars(vs) == [BASE64_CHARS[vs[0]], BASE64_CHARS[vs[1]], BASE64_CHARS[vs[2]], BASE64_CHARS[vs[3]]]
  {
    TableIsAlphabet(vs[0]);
    TableIsAlphabet(vs[1]);
    TableIsAlphabet(vs[2]);
    TableIsAlphabet(vs[3]);
  }

  lemma EncodeBlock(a: byte, b: byte, c: byte)
    ensures TripleChars(PackBytes(a, b, c)) == BlockChars([a, b, c])
  {
    var t := PackBytes(a, b, c);
    var vs := [t / 0x40000 % 0x40, t / 0x1000 % 0x40, t / 0x40 % 0x40, t % 0x40];
    SextetParts(t);
    TripleBits(a, b, c, t);
    SextetBits(vs[0], vs[1], vs[2], vs[3], t);
    SextetsOfFlatten(vs);
    var block := [a, b, c];
    assert |block| / 3 * 4 == |vs|;
    assert BlockChars(block) == Chars(vs);
    TableChars(vs);
    assert TripleChars(t) == [BASE64_CHARS[vs[0]], BASE64_CHARS[vs[1]], BASE64_CHARS[vs[2]], BASE64_CHARS[vs[3]]];
  }

  /** The three shift-and-mask stores of the decoder's loop body. */
  function TripleBytes(t: uint32): (bytes: seq<byte>)
    ensures |bytes| == 3
  {
    [t / 0x10000 % 0x100, t / 0x100 % 0x100, t % 0x100]
  }

  lemma BytesOfFlatten(data: seq<byte>)
    ensures |Flatten(data, 8)| == 8 * |data| && BytesOfBits(Flatten(data, 8), |data|) == data
  {
    ChunksFlatten(data, 8) by { assert Pow2(8) == 256; }
  }

  lemma TripleOfBytes(t: uint32)
    requires t < 0x100_0000
    ensures ToBits(t, 24) == Flatten(TripleBytes(t), 8)
  {
    var bytes := TripleBytes(t);
    ByteParts(t);
    TripleBits(bytes[0], bytes[1], bytes[2], t);
    assert bytes == [bytes[0], bytes[1], bytes[2]];
  }

  lemma DecodeBlock(s: string)
    requires |s| == 4 && OverAlphabet(s)
    ensures TripleBytes(PackSextets(SextetOf(s[0]), SextetOf(s[1]), SextetOf(s[2]), SextetOf(s[3]))) == RawBytes(s)
  {
    hide Flatten, ToBits, Chunks, PackSextets, TripleBytes, BytesOfBits;
    var vs := Sextets(s);
    var t := PackSextets(vs[0], vs[1], vs[2], vs[3]);
    var bytes := TripleBytes(t);
    assert vs == [vs[0], vs[1], vs[2], vs[3]];
    SextetBits(vs[0], vs[1], vs[2], vs[3], t);
    TripleOfBytes(t);
    BytesOfFlatten(bytes);
    assert |s| / 4 * 3 == |bytes|;
  }

  // ---------------------------------------------------------------- filling a buffer

  /** A buffer filled up to `j`, after one more chunk. */
  lemma FillStep<T>(now: seq<T>, was: seq<T>, before: seq<T>, done: seq<T>, chunk: seq<T>, j: nat, k: nat)
    requires |done| == j <= k == j + |chunk| <= |before|
    requires was == done + before[j..]
    requires now == was[..j] + chunk + was[k..]
    ensures now == (done + chunk) + before[k..]
  {
  }

  // ---------------------------------------------------------------- base64_encode

  /** `base64_encode`: the encoding of the first `length` bytes, a NUL, and nothing else written. */
  method Encode(data: array?<byte>, length: nat, encoded: array?<char>) returns (status: int)
    requires data != null && encoded != null ==>
      length <= data.Length && EncodedLength(length) < encoded.Length <= SIZE_MAX
    modifies encoded
    ensures status == if data == null || encoded == null then -1 else 0
    ensures status == -1 && encoded != null ==> encoded[..] == old(encoded[..])
    ensures status == 0 ==>
      encoded[..] == Base64Spec.Encode(data[..length]) + [NUL] + old(encoded[..])[EncodedLength(length) + 1..]
  {
    if data == null || encoded == null {
      return -1;
    }
    EncodeInto(data, length, encoded);
    return 0;
  }

  /** The work of `base64_encode` on buffers that exist. */
  method EncodeInto(data: array<byte>, length: nat, encoded: array<char>)
    requires length <= data.Length && EncodedLength(length) < encoded.Length <= SIZE_MAX
    modifies encoded
    ensures encoded[..] == Base64Spec.Encode(data[..length]) + [NUL] + old(encoded[..])[EncodedLength(length) + 1..]
  {
    hide BlockChars, Pad3, PadCount, EncodedLength, Base64Spec.Encode, Pads;
    ghost var input, before, p := data[..length], encoded[..], PadCount(length);
    EncodedLengthFits(length);
    var encodedLength := SizeT(SizeT(length + 2) / 3 * 4);
    EncodeBlocks(data, length, encoded);
    EncodeByBlocks(input);
    ghost var blocks := BlockChars(Pad3(input));
    PadAndTerminate(encoded, length, encodedLength);
    FilledThenPadded(blocks, before, encodedLength, p);
    assert Base64Spec.Encode(input) == blocks[..encodedLength - p] + Pads(p);
  }

  lemma FilledThenPadded(blocks: string, before: string, n: nat, p: nat)
    requires p <= n == |blocks| && n < |before|
    ensures (blocks + before[n..])[..n - p] == blocks[..n - p]
    ensures (blocks + before[n..])[n + 1..] == before[n + 1..]
  {
  }

  /** The first loop: one zero-completed block of three bytes a turn. */
  method EncodeBlocks(data: array<byte>, length: nat, encoded: array<char>)
    requires length <= data.Length && EncodedLength(length) < encoded.Length
    modifies encoded
    ensures |BlockChars(Pad3(data[..length]))| == EncodedLength(length)
    ensures encoded[..] == BlockChars(Pad3(data[..length])) + old(encoded[..])[EncodedLength(length)..]
  {
    hide BlockChars, Pad3, PadCount, EncodedLength, Written;
    ghost var input, before := data[..length], encoded[..];
    WrittenEnds(input);
    var i, j := 0, 0;
    while i < length
      invariant i <= length && (i % 3 == 0 || i == length)
      invariant j == |Written(input, i)| <= EncodedLength(length)
      invariant encoded[..] == Written(input, i) + before[j..]
    {
      i, j := EncodeNext(data, input, i, length, encoded, j, before);
    }
  }

  /** A turn of the loop, seen as progress through the whole input. */
  method EncodeNext(data: array<byte>, ghost input: seq<byte>, i: nat, length: nat, encoded: array<char>, j: nat,
                    ghost before: string) returns (next: nat, nextJ: nat)
    requires i < length <= data.Length && input == data[..length] && i % 3 == 0
    requires EncodedLength(length) < encoded.Length == |before|
    requires j == |Written(input, i)| <= EncodedLength(length)
    requires encoded[..] == Written(input, i) + before[j..]
    modifies encoded
    ensures i < next <= length && (next % 3 == 0 || next == length)
    ensures nextJ == |Written(input, next)| <= EncodedLength(length)
    ensures encoded[..] == Written(input, next) + before[nextJ..]
  {
    hide BlockChars, Pad3, PadCount, EncodedLength;
    EncodeStep(input, i, if i + 3 <= length then i + 3 else length);
    next := EncodeTurn(data, i, length, encoded, j, input, Written(input, i), before);
    nextJ := j + 4;
  }

  /** The characters of the first `i` bytes. */
  ghost function Written(input: seq<byte>, i: nat): (r: string)
    requires i <= |input|
    ensures |r| == EncodedLength(i)
  {
    WrittenLength(input[..i]);
    BlockChars(Pad3(input[..i]))
  }

  lemma WrittenLength(input: seq<byte>)
    ensures |BlockChars(Pad3(input))| == EncodedLength(|input|)
  {
    hide BlockChars, Pad3;
    PadArithmetic(|input|);
  }

  lemma WrittenEnds(input: seq<byte>)
    ensures Written(input, 0) == "" && Written(input, |input|) == BlockChars(Pad3(input))
  {
    hide BlockChars, Pad3;
    assert EncodedLength(0) == 0 && input[..|input|] == input;
  }

  /** The body of the first loop: three guarded reads, packing, four stores. */
  method EncodeTurn(data: array<byte>, i: nat, length: nat, encoded: array<char>, j: nat,
                    ghost input: seq<byte>, ghost done: string, ghost before: string) returns (next: nat)
    requires i < length <= data.Length && input == data[..length]
    requires j + 4 <= encoded.Length == |before| && j == |done|
    requires encoded[..] == done + before[j..]
    modifies encoded
    ensures next == if i + 3 <= length then i + 3 else length
    ensures |BlockChars(Pad3(input[i..next]))| == 4
    ensures encoded[..] == (done + BlockChars(Pad3(input[i..next]))) + before[j + 4..]
  {
    next := i;
    var a: byte, b: byte, c: byte := 0, 0, 0;
    if next < length { a := data[next]; next := next + 1; }
    if next < length { b := data[next]; next := next + 1; }
    if next < length { c := data[next]; next := next + 1; }
    var triple := PackBytes(a, b, c);
    ghost var was := encoded[..];
    StoreChars(encoded, j, triple);
    FillStep(encoded[..], was, before, done, TripleChars(triple), j, j + 4);
    BlockOf(input[i..next], a, b, c);
  }

  lemma BlockOf(bytes: seq<byte>, a: byte, b: byte, c: byte)
    requires 1 <= |bytes| <= 3 && a == bytes[0]
    requires b == if |bytes| > 1 then bytes[1] else 0
    requires c == if |bytes| > 2 then bytes[2] else 0
    ensures BlockChars(Pad3(bytes)) == TripleChars(PackBytes(a, b, c))
  {
    hide BlockChars, PackBytes, TripleChars;
    assert Pad3(bytes) == [a, b, c];
    EncodeBlock(a, b, c);
  }

  /** The four stores of the first loop. */
  method StoreChars(encoded: array<char>, j: nat, triple: uint32)
    requires j + 4 <= encoded.Length
    modifies encoded
    ensures encoded[..] == old(encoded[..])[..j] + TripleChars(triple) + old(encoded[..])[j + 4..]
  {
    TableLength();
    encoded[j] := BASE64_CHARS[triple / 0x40000 % 0x40];
    encoded[j + 1] := BASE64_CHARS[triple / 0x1000 % 0x40];
    encoded[j + 2] := BASE64_CHARS[triple / 0x40 % 0x40];
    encoded[j + 3] := BASE64_CHARS[triple % 0x40];
  }

  /** The second loop and the terminator: the characters that only encode completion bytes
      become pads, and a NUL follows. */
  method PadAndTerminate(encoded: array<char>, length: nat, encodedLength: nat)
    requires PadCount(length) <= encodedLength < encoded.Length
    modifies encoded
    ensures encoded[..] == old(encoded[..])[..encodedLength - PadCount(length)] + Pads(PadCount(length))
      + [NUL] + old(encoded[..])[encodedLength + 1..]
  {
    ghost var before := encoded[..];
    var i := 0;
    while i < (3 - length % 3) % 3
      invariant i <= PadCount(length)
      invariant forall k :: 0 <= k < encodedLength - i ==> encoded[k] == before[k]
      invariant forall k :: encodedLength - i <= k < encodedLength ==> encoded[k] == PAD
      invariant forall k :: encodedLength <= k < encoded.Length ==> encoded[k] == before[k]
    {
      encoded[encodedLength - 1 - i] := '=';
      i := i + 1;
    }
    encoded[encodedLength] := NUL;
  }

  /** One turn of the encoder's loop consumes one zero-completed block. */
  lemma EncodeStep(input: seq<byte>, i: nat, next: nat)
    requires i < |input| && i % 3 == 0
    requires next == if i + 3 <= |input| then i + 3 else |input|
    ensures EncodedLength(next) == EncodedLength(i) + 4 <= EncodedLength(|input|)
    ensures next % 3 == 0 || next == |input|
    ensures BlockChars(Pad3(input[..next])) == BlockChars(Pad3(input[..i])) + BlockChars(Pad3(input[i..next]))
  {
    BlockLengths(|input|, i, next);
    assert input[..next] == input[..i] + input[i..next];
    Pad3Concat(input[..i], input[i..next]);
    BlockCharsConcat(input[..i], Pad3(input[i..next]));
  }

  lemma BlockLengths(n: nat, i: nat, next: nat)
    requires i < n && i % 3 == 0
    requires next == if i + 3 <= n then i + 3 else n
    ensures EncodedLength(next) == EncodedLength(i) + 4 <= EncodedLength(n)
    ensures PadCount(next) == 3 - (next - i)
  {
    var k := i / 3;
    assert i == 3 * k;
    assert (i + 2) / 3 == k && (next + 2) / 3 == k + 1 <= (n + 2) / 3;
    assert next % 3 == (next - i) % 3;
  }

  /** The length computation does not wrap when the result fits in memory. */
  lemma EncodedLengthFits(n: nat)
    requires EncodedLength(n) < SIZE_MAX
    ensures SizeT(SizeT(n + 2) / 3 * 4) == EncodedLength(n)
  {
    SizeFits(n + 2);
    SizeFits(EncodedLength(n));
  }

  /** An input of one block, packed and looked up. */
  lemma EncodesBlock(x: seq<byte>, a: byte, b: byte, c: byte)
    requires 1 <= |x| <= 3 && a == x[0]
    requires b == (if |x| > 1 then x[1] else 0) && c == if |x| > 2 then x[2] else 0
    ensures Base64Spec.Encode(x) == TripleChars(PackBytes(a, b, c))[..1 + |x|] + Pads(3 - |x|)
  {
    hide Base64Spec.Encode, BlockChars, Pad3, TripleChars, PackBytes;
    EncodeByBlocks(x);
    BlockOf(x, a, b, c);
    OneBlock(|x|);
  }

  lemma OneBlock(n: nat)
    requires 1 <= n <= 3
    ensures EncodedLength(n) == 4 && PadCount(n) == 3 - n
  {
  }

  lemma LookUp(t: uint32, v: nat, w: nat, x: nat, y: nat)
    requires v < 64 && w < 64 && x < 64 && y < 64 && t == v * 0x40000 + w * 0x1000 + x * 0x40 + y
    ensures TripleChars(t) == [CharOf(v), CharOf(w), CharOf(x), CharOf(y)]
  {
    SextetDigits(t, v, w, x, y);
    TableChars([v, w, x, y]);
    hide BASE64_CHARS, CharOf;
    assert TripleChars(t) == [BASE64_CHARS[v], BASE64_CHARS[w], BASE64_CHARS[x], BASE64_CHARS[y]];
    assert Chars([v, w, x, y]) == [CharOf(v), CharOf(w), CharOf(x), CharOf(y)];
  }

  lemma SextetDigits(t: nat, v: nat, w: nat, x: nat, y: nat)
    requires v < 64 && w < 64 && x < 64 && y < 64 && t == v * 0x40000 + w * 0x1000 + x * 0x40 + y
    ensures t / 0x40000 % 0x40 == v && t / 0x1000 % 0x40 == w && t / 0x40 % 0x40 == x && t % 0x40 == y
  {
    assert t / 0x40 == v * 0x1000 + w * 0x40 + x;
    assert t / 0x1000 == v * 0x40 + w;
    assert t / 0x40000 == v;
  }

  /** Test vectors of section 10 of RFC 4648, and the last two characters of its alphabet. */
  lemma Rfc4648Vectors()
    ensures Base64Spec.Encode([0x66]) == "Zg==" && Base64Spec.Encode([0x66, 0x6F]) == "Zm8="
    ensures Base64Spec.Encode([0x66, 0x6F, 0x6F, 0x62, 0x61, 0x72]) == "Zm9vYmFy"
    ensures Base64Spec.Encode([0xFB, 0xEF, 0xBE]) == "++++" && Base64Spec.Encode([0xFF, 0xFF, 0xFF]) == "////"
  {
    hide Base64Spec.Encode, TripleChars;
    EncodesBlock([0x66], 0x66, 0, 0);
    LookUp(0x660000, 25, 32, 0, 0);
    EncodesBlock([0x66, 0x6F], 0x66, 0x6F, 0);
    LookUp(0x666F00, 25, 38, 60, 0);
    EncodesBlock([0x66, 0x6F, 0x6F], 0x66, 0x6F, 0x6F);
    LookUp(0x666F6F, 25, 38, 61, 47);
    EncodesBlock([0x62, 0x61, 0x72], 0x62, 0x61, 0x72);
    LookUp(0x626172, 24, 38, 5, 50);
    EncodeConcat([0x66, 0x6F, 0x6F], [0x62, 0x61, 0x72]);
    assert [0x66, 0x6F, 0x6F] + [0x62, 0x61, 0x72] == [0x66, 0x6F, 0x6F, 0x62, 0x61, 0x72];
    EncodesBlock([0xFB, 0xEF, 0xBE], 0xFB, 0xEF, 0xBE);
    LookUp(0xFBEFBE, 62, 62, 62, 62);
    EncodesBlock([0xFF, 0xFF, 0xFF], 0xFF, 0xFF, 0xFF);
    LookUp(0xFFFFFF, 63, 63, 63, 63);
  }

  // ---------------------------------------------------------------- base64_decode

  /** What the source takes for granted of a string it decodes: it is not empty, since its last two
      characters are read unasked, its length does not wrap when tripled, and when it is looked up
      at all it has no character that `strchr` misses. */
  predicate Decodable(buffer: string, capacity: nat) {
    && HasNul(buffer)
    && Text(buffer) != ""
    && (|Text(buffer)| % 4 == 0 ==>
          |Text(buffer)| * 3 <= SIZE_MAX
          && (DecodedLength(Text(buffer)) <= capacity ==> OverAlphabet(Text(buffer))))
  }

  /** `base64_decode`. It fails exactly on a null argument, on a length that is no multiple of
      four and on a short buffer, and then changes nothing; otherwise it stores the decoded
      length and writes exactly that many bytes. */
  method Decode(encoded: array?<char>, data: array?<byte>, length: SizeRef?) returns (status: int)
    requires encoded != null && data != null && length != null ==>
      Decodable(encoded[..], length.value) && length.value <= data.Length
    modifies data, length
    ensures status == 0 || status == -1
    ensures status == 0 <==>
      (encoded != null && data != null && length != null
       && |Text(encoded[..])| % 4 == 0 && DecodedLength(Text(encoded[..])) <= old(length.value))
    ensures status == -1 && data != null ==> data[..] == old(data[..])
    ensures status == -1 && length != null ==> length.value == old(length.value)
    ensures status == 0 ==> length.value == DecodedLength(Text(encoded[..]))
    ensures status == 0 ==>
      data[..] == Base64Spec.Decode(Text(encoded[..])) + old(data[..])[DecodedLength(Text(encoded[..]))..]
  {
    if encoded == null || data == null || length == null {
      return -1;
    }
    var encodedLength := StrLen(encoded[..]);
    if encodedLength % 4 != 0 {
      return -1;
    }
    SizeFits(encodedLength * 3);
    var decodedLength := SizeT(encodedLength * 3) / 4;
    if encoded[encodedLength - 1] == '=' {
      decodedLength := decodedLength - 1;
    }
    if encoded[encodedLength - 2] == '=' {
      decodedLength := decodedLength - 1;
    }
    assert decodedLength == DecodedLength(Text(encoded[..]));
    if length.value < decodedLength {
      return -1;
    }
    length.value := decodedLength;
    DecodeBlocks(encoded, encodedLength, data, decodedLength);
    DecodeIsRawPrefix(Text(encoded[..]));
    return 0;
  }

  /** The loop: four characters a turn, storing only while fewer than `decodedLength` bytes are out. */
  method DecodeBlocks(encoded: array<char>, encodedLength: nat, data: array<byte>, decodedLength: nat)
    requires encodedLength <= encoded.Length && encodedLength % 4 == 0
    requires OverAlphabet(encoded[..encodedLength])
    requires decodedLength <= encodedLength / 4 * 3 && decodedLength <= data.Length
    modifies data
    ensures data[..] == RawBytes(encoded[..encodedLength])[..decodedLength] + old(data[..])[decodedLength..]
  {
    hide RawBytes, OverAlphabet, Spelled;
    ghost var s, before := encoded[..encodedLength], data[..];
    SpelledEnds(s, decodedLength);
    var i, j := 0, 0;
    while i < encodedLength
      invariant i <= encodedLength && i % 4 == 0
      invariant j == |Spelled(s, i, decodedLength)| && data[..] == Spelled(s, i, decodedLength) + before[j..]
    {
      i, j := DecodeNext(encoded, s, i, data, j, decodedLength, before);
    }
  }

  /** A turn of the loop, seen as progress through the whole string. */
  method DecodeNext(encoded: array<char>, ghost s: string, i: nat, data: array<byte>, j: nat, limit: nat,
                    ghost before: seq<byte>) returns (next: nat, nextJ: nat)
    requires |s| <= encoded.Length && s == encoded[..|s|] && OverAlphabet(s) && |s| % 4 == 0
    requires i < |s| && i % 4 == 0 && limit <= data.Length == |before|
    requires j == |Spelled(s, i, limit)| && data[..] == Spelled(s, i, limit) + before[j..]
    modifies data
    ensures next == i + 4 <= |s| && next % 4 == 0
    ensures nextJ == |Spelled(s, next, limit)| && data[..] == Spelled(s, next, limit) + before[nextJ..]
  {
    hide RawBytes, OverAlphabet, Spelled;
    DecodeStep(s, i, limit);
    next, nextJ := DecodeTurn(encoded, i, data, j, limit, s[i..i + 4], Spelled(s, i, limit), before);
  }

  /** The bytes spelled by the first `i` characters, cut at `limit`. */
  ghost function Spelled(s: string, i: nat, limit: nat): (r: seq<byte>)
    requires OverAlphabet(s) && i <= |s| && i % 4 == 0
    ensures |r| == if i / 4 * 3 < limit then i / 4 * 3 else limit
  {
    var raw := RawBytes(s[..i]);
    if |raw| < limit then raw else raw[..limit]
  }

  lemma SpelledEnds(s: string, limit: nat)
    requires OverAlphabet(s) && |s| % 4 == 0 && limit <= |s| / 4 * 3
    ensures Spelled(s, 0, limit) == []
    ensures Spelled(s, |s|, limit) == RawBytes(s)[..limit]
  {
    assert s[..|s|] == s;
  }

  /** The body of the loop: four lookups, packing, three guarded stores. */
  method DecodeTurn(encoded: array<char>, i: nat, data: array<byte>, j: nat, limit: nat,
                    ghost block: string, ghost done: seq<byte>, ghost before: seq<byte>)
    returns (next: nat, nextJ: nat)
    requires i + 4 <= encoded.Length && block == encoded[i..i + 4] && OverAlphabet(block)
    requires j <= limit <= data.Length == |before| && j == |done|
    requires data[..] == done + before[j..]
    modifies data
    ensures next == i + 4 && nextJ == if j + 3 < limit then j + 3 else limit
    ensures data[..] == (done + RawBytes(block)[..nextJ - j]) + before[nextJ..]
  {
    hide RawBytes, PackSextets;
    ghost var was := data[..];
    assert block == [encoded[i], encoded[i + 1], encoded[i + 2], encoded[i + 3]];
    next := i;
    var a, b, c, d;
    a, next := Lookup(encoded, next);
    b, next := Lookup(encoded, next);
    c, next := Lookup(encoded, next);
    d, next := Lookup(encoded, next);
    var triple := PackSextets(a, b, c, d);
    nextJ := StoreBytes(data, j, limit, triple);
    FillStep(data[..], was, before, done, TripleBytes(triple)[..nextJ - j], j, nextJ);
    DecodeBlock(block);
  }

  /** `encoded[i] == '=' ? 0 & i++ : strchr(base64_chars, encoded[i++]) - base64_chars` */
  method Lookup(encoded: array<char>, i: nat) returns (v: uint32, next: nat)
    requires i < encoded.Length && (encoded[i] == PAD || IsCode(encoded[i]))
    ensures v == SextetOf(encoded[i]) && next == i + 1
  {
    if encoded[i] == '=' {
      v, next := 0, i + 1;
    } else {
      StrChrIsValueOf(encoded[i]);
      v, next := StrChr(BASE64_CHARS, encoded[i]), i + 1;
    }
  }

  /** The three guarded stores of the loop. */
  method StoreBytes(data: array<byte>, j: nat, limit: nat, triple: uint32) returns (next: nat)
    requires j <= limit <= data.Length
    modifies data
    ensures next == if j + 3 < limit then j + 3 else limit
    ensures data[..] == old(data[..])[..j] + TripleBytes(triple)[..next - j] + old(data[..])[next..]
  {
    next := j;
    if next < limit { data[next] := triple / 0x10000 % 0x100; next := next + 1; }
    if next < limit { data[next] := triple / 0x100 % 0x100; next := next + 1; }
    if next < limit { data[next] := triple % 0x100; next := next + 1; }
  }

  /** One turn of the decoder's loop extends the bytes spelled so far by those of one block. */
  lemma DecodeStep(s: string, i: nat, limit: nat)
    requires |s| % 4 == 0 && OverAlphabet(s) && i % 4 == 0 && i < |s|
    ensures i + 4 <= |s| && (i + 4) % 4 == 0 && OverAlphabet(s[i..i + 4])
    ensures var was, now := Spelled(s, i, limit), Spelled(s, i + 4, limit);
            now == was + RawBytes(s[i..i + 4])[..|now| - |was|]
  {
    hide RawBytes;
    var front, block := s[..i], s[i..i + 4];
    assert s[..i + 4] == front + block;
    RawBytesConcat(front, block);
    TakeConcat(RawBytes(front), RawBytes(block), limit);
  }

  lemma TakeConcat<T>(x: seq<T>, y: seq<T>, limit: nat)
    ensures limit <= |x| ==> (x + y)[..limit] == x[..limit] && x[..limit] + y[..0] == x[..limit]
    ensures |x| <= limit <= |x + y| ==> (x + y)[..limit] == x + y[..limit - |x|]
    ensures y[..|y|] == y
  {
  }

  /** A string of one block, canonical or not, decodes to the first bytes of its packed sextets. */
  lemma DecodesBlock(s: string)
    requires |s| == 4 && OverAlphabet(s)
    ensures DecodedLength(s) == 3 - multiset(s[2..])[PAD]
    ensures Base64Spec.Decode(s)
      == TripleBytes(PackSextets(SextetOf(s[0]), SextetOf(s[1]), SextetOf(s[2]), SextetOf(s[3])))[..DecodedLength(s)]
  {
    hide Base64Spec.Decode, RawBytes, PackSextets, TripleBytes;
    DecodedLengthCountsPads(s);
    DecodeIsRawPrefix(s);
    DecodeBlock(s);
  }

  /** What the decoder makes of strings the encoder never produces: with a pad only in the last place
      but one it gives two bytes, the bits of the last character lost. */
  lemma NonCanonicalDecodes()
    ensures OverAlphabet("AB=D") && Base64Spec.Decode("AB=D") == [0, 16]
    ensures OverAlphabet("====") && Base64Spec.Decode("====") == [0]
    ensures OverAlphabet("AB==") && Base64Spec.Decode("AB==") == [0]
    ensures OverAlphabet("=AAB") && Base64Spec.Decode("=AAB") == [0, 0, 1]
  {
    hide Base64Spec.Decode;
    DecodesTo("AB=D", 0, 1, 0, 3, 0x1003, 2);
    DecodesTo("====", 0, 0, 0, 0, 0, 1);
    DecodesTo("AB==", 0, 1, 0, 0, 0x1000, 1);
    DecodesTo("=AAB", 0, 0, 0, 1, 1, 3);
  }

  lemma DecodesTo(s: string, a: nat, b: nat, c: nat, d: nat, t: nat, n: nat)
    requires |s| == 4 && OverAlphabet(s) && a < 64 && b < 64 && c < 64 && d < 64
    requires SextetOf(s[0]) == a && SextetOf(s[1]) == b && SextetOf(s[2]) == c && SextetOf(s[3]) == d
    requires t == a * 0x40000 + b * 0x1000 + c * 0x40 + d
    requires n == 3 - (if s[2] == PAD then 1 else 0) - (if s[3] == PAD then 1 else 0)
    ensures Base64Spec.Decode(s) == [t / 0x10000 % 0x100, t / 0x100 % 0x100, t % 0x100][..n]
  {
    hide Base64Spec.Decode, PackSextets;
    DecodesBlock(s);
    assert DecodedLength(s) == n && PackSextets(a, b, c, d) == t;
  }

  // ---------------------------------------------------------------- through a buffer

  lemma EncodeHasNoNul(x: seq<byte>)
    ensures NUL !in Base64Spec.Encode(x)
  {
    hide Flatten, PadBits, PadCount;
    SextetsOfEncode(x);
  }

  /** The buffer `base64_encode` leaves is one that `base64_decode` accepts, and for every output
      capacity of at least |x| bytes what it decodes to is x. */
  lemma EncodedBufferDecodes(x: seq<byte>, rest: string, capacity: nat)
    requires x != []
    ensures var buffer := Base64Spec.Encode(x) + [NUL] + rest;
            && HasNul(buffer) && Text(buffer) == Base64Spec.Encode(x) && Text(buffer) != ""
            && |Text(buffer)| % 4 == 0 && OverAlphabet(Text(buffer))
            && (DecodedLength(Text(buffer)) <= capacity <==> |x| <= capacity)
            && Base64Spec.Decode(Text(buffer)) == x
  {
    hide Flatten, PadBits, PadCount, Base64Spec.Encode, Base64Spec.Decode;
    DecodeEncode(x);
    EncodeHasNoNul(x);
    TextIs(Base64Spec.Encode(x) + [NUL] + rest, Base64Spec.Encode(x));
  }
}
