/** `_b64_decode`: repair the padding of unpadded base64 text before handing
    it to the base64 decoder. The decoder itself (Python's `base64.b64decode`
    followed by `.decode("utf-8")`) is a library call and is a parameter here. */
module Padding {
  import opened Common

  /** Decodes padded base64 text to UTF-8 text, or rejects it. */
  type Decoder = string -> Option<string>

  const PAD_CHAR := '='

  /** `-len(s) % 4` for a text of length `n`. Python's `%` floors and Dafny's
      is Euclidean; for the positive divisor 4 both give the same value. */
  function PadCount(n: nat): (k: nat)
    ensures k < 4
    ensures (n + k) % 4 == 0
    ensures k == 0 <==> n % 4 == 0
  {
    (-(n as int)) % 4
  }

  /** `s + "=" * (-len(s) % 4)`: the shortest extension of `s` by `=`
      characters whose length is a multiple of 4. */
  function Pad(s: string): (p: string)
    ensures |p| % 4 == 0
    ensures |s| <= |p| < |s| + 4
    ensures p[..|s|] == s
    ensures forall i :: |s| <= i < |p| ==> p[i] == PAD_CHAR
    ensures |s| % 4 == 0 ==> p == s
  {
    s + seq(PadCount(|s|), _ => PAD_CHAR)
  }

  /** Padding text that is already padded changes nothing. */
  lemma PadIdempotent(s: string)
    ensures Pad(Pad(s)) == Pad(s)
  {
  }

  /** `_b64_decode(s).decode("utf-8")`. */
  function B64DecodeUtf8(decode: Decoder, s: string): Option<string> {
    decode(Pad(s))
  }
}
