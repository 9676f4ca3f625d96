/** Bytes as the tokenizer sees them: `unsigned char` values and the
    NUL-terminated strings built from them. */
module Bytes {

  /** An `unsigned char`. */
  type byte = b: int | 0 <= b < 256

  const NUL: byte := 0

  /** The content of a C string stored in `s`: everything before the first
      NUL byte, which is what `strlen` measures. */
  function UpToNul(s: seq<byte>): (r: seq<byte>)
    ensures r <= s
    ensures NUL !in r
    ensures |r| < |s| ==> s[|r|] == NUL
  {
    if s == [] || s[0] == NUL then [] else [s[0]] + UpToNul(s[1..])
  }

  /** A byte string without NUL is read back whole. */
  lemma UpToNulOfNulFree(s: seq<byte>)
    requires NUL !in s
    ensures UpToNul(s) == s
  {
  }

  /** `strlen` only looks at the bytes before the terminator, so appending
      anything after a NUL does not change the result. */
  lemma {:induction false} UpToNulAppend(s: seq<byte>, t: seq<byte>)
    requires NUL !in s
    ensures UpToNul(s + [NUL] + t) == s
  {
    if s != [] {
      assert (s + [NUL] + t)[1..] == s[1..] + [NUL] + t;
      UpToNulAppend(s[1..], t);
    }
  }
}
