/** C strings in fixed-size character rows: the text up to the first NUL, and what the libc copy
    functions leave in a destination row, byte for byte. */
module CStrings {
  const NUL: char := '\0'

  predicate HasNul(row: seq<char>) {
    NUL in row
  }

  /** `strlen`: the index of the first NUL. */
  function StrLen(row: seq<char>): (n: nat)
    requires HasNul(row)
    ensures n < |row| && row[n] == NUL
    ensures forall k :: 0 <= k < n ==> row[k] != NUL
  {
    if row[0] == NUL then 0 else 1 + StrLen(row[1..])
  }

  /** The text a row holds. */
  function Text(row: seq<char>): (s: string)
    requires HasNul(row)
    ensures NUL !in s && |s| < |row|
  {
    row[..StrLen(row)]
  }

  /** `strcpy(dst, src)`: the text and its NUL; the bytes of `dst` behind it stay. */
  function StrCpy(dst: seq<char>, src: seq<char>): (row: seq<char>)
    requires HasNul(src) && StrLen(src) < |dst|
    ensures |row| == |dst|
  {
    src[..StrLen(src) + 1] + dst[StrLen(src) + 1..]
  }

  /** `strncpy(dst, text, n)`: at most `n` characters, filled up to `n` with NULs. */
  function StrNCpy(dst: seq<char>, text: string, n: nat): (row: seq<char>)
    requires n <= |dst|
    ensures |row| == |dst|
  {
    seq(|dst|, k requires 0 <= k < |dst| => if k < n then (if k < |text| then text[k] else NUL) else dst[k])
  }

  /** A row is determined by its text up to the first NUL. */
  lemma TextIs(row: seq<char>, s: string)
    requires |s| < |row| && row[..|s|] == s && row[|s|] == NUL && NUL !in s
    ensures HasNul(row) && Text(row) == s
  {
    assert forall k :: 0 <= k < |s| ==> row[k] == s[k];
  }

  /** Which bytes of the target row `strcpy` writes. */
  lemma StrCpyBytes(dst: seq<char>, src: seq<char>)
    requires HasNul(src) && StrLen(src) < |dst|
    ensures forall k :: 0 <= k < |dst| ==> StrCpy(dst, src)[k] == if k <= StrLen(src) then src[k] else dst[k]
  {
  }

  lemma TextOfStrCpy(dst: seq<char>, src: seq<char>)
    requires HasNul(src) && StrLen(src) < |dst|
    ensures HasNul(StrCpy(dst, src)) && Text(StrCpy(dst, src)) == Text(src)
  {
    TextIs(StrCpy(dst, src), Text(src));
  }
}
