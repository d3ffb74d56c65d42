/** What the specification of Base64 promises: the two round trips, the exact image of the
    encoder, and how encodings of concatenated inputs compose. */
module Base64Theorems {
  import opened Bits
  import opened Base64Spec

  lemma SextetsOfChars(vs: seq<nat>)
    requires IsSextets(vs)
    ensures OverAlphabet(Chars(vs)) && Sextets(Chars(vs)) == vs
    ensures forall i :: 0 <= i < |vs| ==> IsCode(Chars(vs)[i]) && Chars(vs)[i] != PAD
  {
    forall i | 0 <= i < |vs|
      ensures IsCode(Chars(vs)[i]) && Chars(vs)[i] != PAD && SextetOf(Chars(vs)[i]) == vs[i]
    {
      ValueOfCharOf(vs[i]);
    }
  }

  lemma CharsOfSextets(s: string)
    requires forall i :: 0 <= i < |s| ==> IsCode(s[i])
    ensures OverAlphabet(s) && Chars(Sextets(s)) == s
  {
    forall i | 0 <= i < |s| ensures CharOf(SextetOf(s[i])) == s[i] {
      CharOfValueOf(s[i]);
    }
  }

  lemma SextetsConcat(s: string, t: string)
    requires OverAlphabet(s) && OverAlphabet(t)
    ensures OverAlphabet(s + t) && Sextets(s + t) == Sextets(s) + Sextets(t)
  {
  }

  lemma SextetsOfPads(n: nat)
    ensures OverAlphabet(Pads(n)) && Flatten(Sextets(Pads(n)), 6) == Zeros(6 * n)
  {
    assert Sextets(Pads(n)) == Repeat<nat>(0, n);
    FlattenZeros(n, 6);
  }

  lemma PadArithmetic(n: nat)
    ensures (6 - 8 * n % 6) % 6 == 2 * PadCount(n)
    ensures PadCount(n) <= EncodedLength(n)
    ensures 8 * n + 2 * PadCount(n) == 6 * (EncodedLength(n) - PadCount(n))
    ensures n + PadCount(n) == EncodedLength(n) / 4 * 3 && EncodedLength(n) % 4 == 0
  {
    var k := n / 3;
    if n == 3 * k {
      assert PadCount(n) == 0 && EncodedLength(n) == 4 * k && 8 * n == 6 * (4 * k);
    } else if n == 3 * k + 1 {
      assert PadCount(n) == 2 && EncodedLength(n) == 4 * k + 4 && 8 * n == 6 * (4 * k + 1) + 2;
    } else {
      assert n == 3 * k + 2;
      assert PadCount(n) == 1 && EncodedLength(n) == 4 * k + 4 && 8 * n == 6 * (4 * k + 2) + 4;
    }
  }

  lemma PadBitsOfBytes(x: seq<byte>)
    ensures |Flatten(x, 8)| == 8 * |x|
    ensures PadBits(Flatten(x, 8)) == Flatten(x, 8) + Zeros(2 * PadCount(|x|))
    ensures |PadBits(Flatten(x, 8))| == 6 * (EncodedLength(|x|) - PadCount(|x|))
  {
    FlattenLength(x, 8);
    PadArithmetic(|x|);
  }

  /** Section 4 of RFC 4648: the six-bit values of the data characters, concatenated, are the
      input bits padded with zeros to a multiple of six, and the rest is padding. */
  lemma EncodeIsTheBitStream(x: seq<byte>)
    ensures |Encode(x)| == EncodedLength(|x|)
    ensures var body := Encode(x)[..|Encode(x)| - PadCount(|x|)];
            && Encode(x) == body + Pads(PadCount(|x|))
            && OverAlphabet(body)
            && (forall i :: 0 <= i < |body| ==> IsCode(body[i]) && body[i] != PAD)
            && Flatten(Sextets(body), 6) == PadBits(Flatten(x, 8))
  {
    var bits := PadBits(Flatten(x, 8));
    var vs := SextetsOfBits(bits, |bits| / 6);
    PadBitsOfBytes(x);
    assert Encode(x)[..|vs|] == Chars(vs);
    SextetsOfChars(vs);
    FlattenChunks(bits, 6, |bits| / 6);
  }

  lemma CharsConcat(vs: seq<nat>, ws: seq<nat>)
    requires IsSextets(vs) && IsSextets(ws)
    ensures IsSextets(vs + ws) && Chars(vs + ws) == Chars(vs) + Chars(ws)
  {
  }

  /** Pads read as zero bits. */
  lemma FlattenPadded(body: string, p: nat)
    requires OverAlphabet(body)
    ensures OverAlphabet(body + Pads(p))
    ensures Flatten(Sextets(body + Pads(p)), 6) == Flatten(Sextets(body), 6) + Zeros(6 * p)
  {
    SextetsOfPads(p);
    SextetsConcat(body, Pads(p));
    FlattenConcat(Sextets(body), Sextets(Pads(p)), 6);
  }

  lemma AppendZeros(bits: seq<bool>, m: nat, n: nat, sum: nat)
    requires sum == m + n
    ensures (bits + Zeros(m)) + Zeros(n) == bits + Zeros(sum)
  {
  }

  lemma SextetsOfEncode(x: seq<byte>)
    ensures OverAlphabet(Encode(x))
    ensures Flatten(Sextets(Encode(x)), 6) == Flatten(x, 8) + Zeros(8 * PadCount(|x|))
  {
    var e, p := Encode(x), PadCount(|x|);
    EncodeIsTheBitStream(x);
    var body := e[..|e| - p];
    assert e == body + Pads(p);
    FlattenPadded(body, p);
    PadBitsOfBytes(x);
    AppendZeros(Flatten(x, 8), 2 * p, 6 * p, 8 * p);
  }

  /** Decoding an encoding gives back the input, and announces its length. */
  lemma DecodeEncode(x: seq<byte>)
    requires x != []
    ensures Encode(x) != "" && |Encode(x)| % 4 == 0 && OverAlphabet(Encode(x))
    ensures DecodedLength(Encode(x)) == |x|
    ensures Decode(Encode(x)) == x
  {
    var e, n, p := Encode(x), |x|, PadCount(|x|);
    EncodeIsTheBitStream(x);
    PadArithmetic(n);
    assert DecodedLength(e) == n;
    SextetsOfEncode(x);
    ChunksFlatten(x, 8) by { assert Pow2(8) == 256; }
    assert (Flatten(x, 8) + Zeros(8 * p))[..8 * n] == Flatten(x, 8);
  }

  // ---------------------------------------------------------------- canonical strings

  /** The low `k` bits of a six-bit number are zero exactly when it is a multiple of 2^k. */
  lemma LowBits(v: nat)
    requires v < 64
    ensures ToBits(v, 6)[4..] == Zeros(2) <==> v % 4 == 0
    ensures ToBits(v, 6)[2..] == Zeros(4) <==> v % 16 == 0
  {
    assert Pow2(2) == 4 && Pow2(4) == 16;
    ToBitsConcat(v / 4, 4, v % 4, 2, v);
    ToBitsConcat(v / 16, 2, v % 16, 4, v);
    assert ToBits(v, 6)[4..] == ToBits(v % 4, 2);
    assert ToBits(v, 6)[2..] == ToBits(v % 16, 4);
    ToBitsZero(2);
    ToBitsZero(4);
    FromToBits(v % 4, 2);
    FromToBits(v % 16, 4);
  }

  lemma LastSextet(vs: seq<nat>)
    requires vs != []
    ensures |Flatten(vs, 6)| == 6 * |vs|
    ensures Flatten(vs, 6)[6 * (|vs| - 1)..] == ToBits(vs[|vs| - 1], 6)
  {
  }

  /** The two ways of seeing zero padding: as a suffix of the whole, or of the last six bits. */
  lemma ZeroTail(bits: seq<bool>, k: nat, tail: nat)
    requires 6 * k == |bits| && k > 0 && tail <= 6
    ensures bits[6 * (k - 1)..][6 - tail..] == bits[|bits| - tail..]
    ensures bits == bits[..|bits| - tail] + bits[|bits| - tail..]
  {
  }

  lemma LastSextetOfEncode(x: seq<byte>)
    requires PadCount(|x|) > 0
    ensures |Encode(x)| == EncodedLength(|x|) > PadCount(|x|)
    ensures var v := SextetOf(Encode(x)[|Encode(x)| - PadCount(|x|) - 1]);
            ToBits(v, 6)[6 - 2 * PadCount(|x|)..] == Zeros(2 * PadCount(|x|))
  {
    hide Flatten, ToBits, Encode, PadBits;
    var e, p := Encode(x), PadCount(|x|);
    EncodeIsTheBitStream(x);
    PadBitsOfBytes(x);
    var body := e[..|e| - p];
    var all := PadBits(Flatten(x, 8));
    LastSextet(Sextets(body));
    ZeroTail(all, |body|, 2 * p);
    assert all[|all| - 2 * p..] == Zeros(2 * p);
  }

  /** The encoder only produces canonical strings. */
  lemma EncodeIsCanonical(x: seq<byte>)
    ensures CanonicalWith(Encode(x), PadCount(|x|))
  {
    hide Flatten, ToBits, Chunks, Encode, PadBits, PadCount, EncodedLength;
    var e, p := Encode(x), PadCount(|x|);
    EncodeIsTheBitStream(x);
    PadArithmetic(|x|);
    assert |e| % 4 == 0;
    if p > 0 {
      LastSextetOfEncode(x);
      LowBits(SextetOf(e[|e| - p - 1]));
    }
  }

  lemma CanonicalLengths(s: string, p: nat)
    requires s != "" && p <= 2 && CanonicalWith(s, p)
    ensures OverAlphabet(s) && DecodedLength(s) == |s| / 4 * 3 - p
    ensures PadCount(DecodedLength(s)) == p
    ensures 8 * DecodedLength(s) + 2 * p == 6 * (|s| - p)
  {
  }

  /** A canonical string's data bits, padded again, are its sextets' bits again. */
  lemma CanonicalBits(s: string, p: nat)
    requires s != "" && p <= 2 && CanonicalWith(s, p) && OverAlphabet(s) && OverAlphabet(s[..|s| - p])
    ensures |Flatten(Sextets(s), 6)| == 6 * |s|
    ensures |Flatten(Sextets(s[..|s| - p]), 6)| == 6 * (|s| - p)
    ensures Flatten(Sextets(s), 6)[..8 * DecodedLength(s)] + Zeros(2 * p) == Flatten(Sextets(s[..|s| - p]), 6)
  {
    hide Flatten, ToBits, Chunks, PadCount, DecodedLength, CanonicalWith, Pads;
    var body := CanonicalParts(s, p);
    var n := DecodedLength(s);
    CanonicalLengths(s, p);
    FlattenLength(Sextets(s), 6);
    FlattenLength(Sextets(body), 6);
    FlattenPadded(body, p);
    var bits := Flatten(Sextets(body), 6);
    BodyEndsInZeros(body, p, bits, n);
    CutZeros(bits, 8 * n, 2 * p, 6 * p);
  }

  lemma CanonicalParts(s: string, p: nat) returns (body: string)
    requires s != "" && p <= 2 && CanonicalWith(s, p)
    ensures p < |s| && |s| % 4 == 0 && body == s[..|s| - p] && s == body + Pads(p)
    ensures forall i :: 0 <= i < |body| ==> IsCode(body[i])
    ensures p == 1 ==> ValueOf(body[|body| - 1]) % 4 == 0
    ensures p == 2 ==> ValueOf(body[|body| - 1]) % 16 == 0
  {
    body := s[..|s| - p];
  }

  /** The bits of the last data character that carry no data are zero. */
  lemma BodyEndsInZeros(body: string, p: nat, bits: seq<bool>, n: nat)
    requires body != "" && p <= 2 && (forall i :: 0 <= i < |body| ==> IsCode(body[i])) && OverAlphabet(body)
    requires bits == Flatten(Sextets(body), 6) && |bits| == 6 * |body| == 8 * n + 2 * p
    requires p == 1 ==> ValueOf(body[|body| - 1]) % 4 == 0
    requires p == 2 ==> ValueOf(body[|body| - 1]) % 16 == 0
    ensures bits[8 * n..] == Zeros(2 * p)
  {
    hide Flatten, ToBits, ValueOf, OverAlphabet;
    LastSextet(Sextets(body));
    ZeroTail(bits, |body|, 2 * p);
    LowBits(SextetOf(body[|body| - 1]));
  }

  lemma CutZeros(bits: seq<bool>, n: nat, tail: nat, more: nat)
    requires n <= |bits| && bits[n..] == Zeros(tail)
    ensures (bits + Zeros(more))[..n] + Zeros(tail) == bits
  {
    assert bits == bits[..n] + bits[n..];
  }

  lemma FlattenDecode(s: string)
    requires s != "" && |s| % 4 == 0 && OverAlphabet(s)
    ensures |Flatten(Sextets(s), 6)| == 6 * |s|
    ensures Flatten(Decode(s), 8) == Flatten(Sextets(s), 6)[..8 * DecodedLength(s)]
  {
    hide Flatten, ToBits, Chunks, DecodedLength, Sextets, OverAlphabet;
    FlattenLength(Sextets(s), 6);
    FlattenChunks(Flatten(Sextets(s), 6)[..8 * DecodedLength(s)], 8, DecodedLength(s));
  }

  lemma SextetsOfFlatten(vs: seq<nat>)
    requires IsSextets(vs)
    ensures |Flatten(vs, 6)| == 6 * |vs| && SextetsOfBits(Flatten(vs, 6), |vs|) == vs
  {
    ChunksFlatten(vs, 6) by { assert Pow2(6) == 64; }
  }

  /** If some sextets spell the padded bits of `x`, they are the data characters of its encoding. */
  lemma EncodeFromSextets(x: seq<byte>, vs: seq<nat>)
    requires IsSextets(vs) && PadBits(Flatten(x, 8)) == Flatten(vs, 6)
    ensures Encode(x) == Chars(vs) + Pads(PadCount(|x|))
  {
    var bits := PadBits(Flatten(x, 8));
    SextetsOfFlatten(vs);
    assert |bits| / 6 == |vs|;
  }

  lemma EncodeDecodeCanonical(s: string, p: nat)
    requires s != "" && p <= 2 && CanonicalWith(s, p)
    ensures OverAlphabet(s) && Encode(Decode(s)) == s
  {
    var body := s[..|s| - p];
    CanonicalLengths(s, p);
    CharsOfSextets(body);
    CanonicalBits(s, p);
    FlattenDecode(s);
    PadBitsOfBytes(Decode(s));
    EncodeFromSextets(Decode(s), Sextets(body));
    assert s == body + Pads(p);
  }

  /** Encoding a decoded string gives the string back exactly when it was canonical. */
  lemma EncodeDecode(s: string)
    requires s != "" && |s| % 4 == 0 && OverAlphabet(s)
    ensures Encode(Decode(s)) == s <==> Canonical(s)
  {
    if Canonical(s) {
      var p: nat :| p <= 2 && CanonicalWith(s, p);
      EncodeDecodeCanonical(s, p);
    } else {
      EncodeIsCanonical(Decode(s));
    }
  }

  /** Strings the decoder accepts and the encoder never produces: a pad in the middle, nothing but
      pads, and a last data character with bits that carry no data. */
  lemma AcceptedNotCanonical(s: string)
    requires s == "AA=A" || s == "====" || s == "AB=="
    ensures |s| % 4 == 0 && OverAlphabet(s) && Encode(Decode(s)) != s
  {
    hide Encode, Decode, Flatten;
    EncodeDecode(s);
    assert |s| == 4 && s[2] == PAD;
    assert s == "AB==" ==> ValueOf(s[1]) == 1;
  }

  /** Three bytes for each four characters, less the pads among the last two, wherever they stand. */
  lemma DecodedLengthCountsPads(s: string)
    requires s != "" && |s| % 4 == 0
    ensures DecodedLength(s) == |s| / 4 * 3 - multiset(s[|s| - 2..])[PAD]
  {
    var x, y := s[|s| - 2], s[|s| - 1];
    assert s[|s| - 2..] == [x] + [y];
    assert multiset(s[|s| - 2..]) == multiset([x]) + multiset([y]);
  }

  /** The encoder's image on non-empty inputs is exactly the non-empty canonical strings. */
  lemma EncoderImage(s: string)
    requires s != ""
    ensures Canonical(s) <==> exists x: seq<byte> :: x != [] && Encode(x) == s
  {
    if Canonical(s) {
      var p: nat :| p <= 2 && CanonicalWith(s, p);
      EncodeDecodeCanonical(s, p);
      assert Decode(s) != [] && Encode(Decode(s)) == s;
    }
    forall x: seq<byte> | x != [] && Encode(x) == s ensures Canonical(s) {
      EncodeIsCanonical(x);
    }
  }

  // ---------------------------------------------------------------- blocks

  /** `data` completed with zero bytes to whole blocks of three. */
  function Pad3(data: seq<byte>): (r: seq<byte>)
    ensures |r| == |data| + PadCount(|data|) && |r| % 3 == 0
  {
    data + Repeat<byte>(0, PadCount(|data|))
  }

  lemma Pad3Concat(x: seq<byte>, y: seq<byte>)
    requires |x| % 3 == 0
    ensures PadCount(|x|) == 0 && Pad3(x) == x
    ensures PadCount(|x + y|) == PadCount(|y|) && Pad3(x + y) == x + Pad3(y)
  {
  }

  lemma FlattenZeroBytes(n: nat)
    ensures Flatten(Repeat<byte>(0, n), 8) == Zeros(8 * n)
  {
    assert Repeat<byte>(0, n) == Repeat<nat>(0, n);
    FlattenZeros(n, 8);
  }

  lemma FlattenPad3(x: seq<byte>)
    ensures Flatten(Pad3(x), 8) == PadBits(Flatten(x, 8)) + Zeros(6 * PadCount(|x|))
  {
    var p := PadCount(|x|);
    FlattenZeroBytes(p);
    FlattenConcat(x, Repeat<byte>(0, p), 8);
    PadBitsOfBytes(x);
    AppendZeros(Flatten(x, 8), 2 * p, 6 * p, 8 * p);
  }

  /** Every sextet of whole blocks, with no padding. */
  function BlockChars(data: seq<byte>): (s: string)
    requires |data| % 3 == 0
    ensures |s| == |data| / 3 * 4
  {
    FlattenLength(data, 8);
    Chars(SextetsOfBits(Flatten(data, 8), |data| / 3 * 4))
  }

  lemma BlockCharsConcat(x: seq<byte>, y: seq<byte>)
    requires |x| % 3 == 0 && |y| % 3 == 0
    ensures BlockChars(x + y) == BlockChars(x) + BlockChars(y)
  {
    hide Flatten, Chunks, ToBits;
    FlattenLength(x, 8);
    FlattenLength(y, 8);
    FlattenConcat(x, y, 8);
    var m, n := |x| / 3 * 4, |y| / 3 * 4;
    assert |x + y| / 3 * 4 == m + n;
    ChunksConcat(Flatten(x, 8), Flatten(y, 8), 6, m, n);
    CharsConcat(SextetsOfBits(Flatten(x, 8), m), SextetsOfBits(Flatten(y, 8), n));
  }

  /** Encoding zero-completed blocks and overwriting the last characters with pads is encoding. */
  lemma EncodeByBlocks(x: seq<byte>)
    ensures |BlockChars(Pad3(x))| == EncodedLength(|x|)
    ensures PadCount(|x|) <= EncodedLength(|x|)
    ensures Encode(x) == BlockChars(Pad3(x))[..EncodedLength(|x|) - PadCount(|x|)] + Pads(PadCount(|x|))
  {
    hide Flatten, Chunks, PadCount, EncodedLength, PadBits, Pad3;
    var p := PadCount(|x|);
    var padded := PadBits(Flatten(x, 8));
    var n := EncodedLength(|x|) - p;
    PadArithmetic(|x|);
    PadBitsOfBytes(x);
    FlattenPad3(x);
    ChunksConcat(padded, Zeros(6 * p), 6, n, p);
    CharsConcat(SextetsOfBits(padded, n), SextetsOfBits(Zeros(6 * p), p));
  }

  /** Whole blocks encode independently of what follows. */
  lemma EncodeConcat(x: seq<byte>, y: seq<byte>)
    requires |x| % 3 == 0
    ensures Encode(x + y) == Encode(x) + Encode(y)
  {
    hide Encode, BlockChars, Pad3, PadCount, EncodedLength;
    EncodeByBlocks(x);
    EncodeByBlocks(y);
    EncodeByBlocks(x + y);
    Pad3Concat(x, y);
    BlockCharsConcat(x, Pad3(y));
    assert BlockChars(Pad3(x + y)) == Encode(x) + BlockChars(Pad3(y));
  }

  /** All bytes that the sextets of a string spell, before truncation to the decoded length. */
  function RawBytes(s: string): (data: seq<byte>)
    requires |s| % 4 == 0 && OverAlphabet(s)
    ensures |data| == |s| / 4 * 3
  {
    FlattenLength(Sextets(s), 6);
    BytesOfBits(Flatten(Sextets(s), 6), |s| / 4 * 3)
  }

  lemma RawBytesConcat(s: string, t: string)
    requires |s| % 4 == 0 && OverAlphabet(s) && |t| % 4 == 0 && OverAlphabet(t)
    ensures OverAlphabet(s + t) && RawBytes(s + t) == RawBytes(s) + RawBytes(t)
  {
    hide Flatten, Chunks, ToBits;
    SextetsConcat(s, t);
    FlattenConcat(Sextets(s), Sextets(t), 6);
    FlattenLength(Sextets(s), 6);
    FlattenLength(Sextets(t), 6);
    ChunksConcat(Flatten(Sextets(s), 6), Flatten(Sextets(t), 6), 8, |s| / 4 * 3, |t| / 4 * 3);
  }

  /** Truncating the raw bytes is the same as truncating the bits first. */
  lemma DecodeIsRawPrefix(s: string)
    requires s != "" && |s| % 4 == 0 && OverAlphabet(s)
    ensures Decode(s) == RawBytes(s)[..DecodedLength(s)]
  {
    FlattenLength(Sextets(s), 6);
    var bits, n, m := Flatten(Sextets(s), 6), DecodedLength(s), |s| / 4 * 3;
    assert bits == bits[..8 * n] + bits[8 * n..];
    ChunksConcat(bits[..8 * n], bits[8 * n..], 8, n, m - n);
  }
}
