/**
 * The block padding around AES-CBC (internal/infrastructure/utils/crypto.go):
 * AESEncrypt pads the plaintext as section 6.3 of RFC 5652 describes, and
 * AESDecrypt strips as many bytes as the last byte says. The cipher, the
 * key and base64 are not part of this model.
 */
module Pkcs7 {
  import opened Common

  /** aes.BlockSize */
  const BlockSize: nat := 16

  /** The padding AESEncrypt appends to a plaintext of length `n`. */
  function PadLength(n: nat): (k: nat)
    ensures 1 <= k <= BlockSize
    ensures (n + k) % BlockSize == 0
  {
    BlockSize - n % BlockSize
  }

  /** `k` copies of the byte `b` (bytes.Repeat). */
  function Repeat(b: Byte, k: nat): (r: seq<Byte>)
    ensures |r| == k && forall i :: 0 <= i < k ==> r[i] == b
  {
    if k == 0 then [] else [b] + Repeat(b, k - 1)
  }

  /** The padding step of AESEncrypt. */
  function Pad(p: seq<Byte>): (r: seq<Byte>)
    ensures |r| % BlockSize == 0 && |p| < |r| <= |p| + BlockSize
    ensures r[..|p|] == p
    ensures forall i :: |p| <= i < |r| ==> r[i] == |r| - |p|
  {
    var k := PadLength(|p|);
    p + Repeat(k, k)
  }

  /**
   * The unpadding step of AESDecrypt: drop as many trailing bytes as the
   * last byte's value. Go's slice expression panics on an empty input or on
   * a last byte larger than the length; nothing else is checked.
   */
  function Unpad(p: seq<Byte>): (r: seq<Byte>)
    requires |p| > 0 && p[|p| - 1] <= |p|
    ensures |r| == |p| - p[|p| - 1] && r == p[..|r|]
  {
    p[..|p| - p[|p| - 1]]
  }

  /** Unpadding the padded plaintext gives the plaintext back. */
  lemma UnpadPad(p: seq<Byte>)
    ensures var q := Pad(p); |q| > 0 && q[|q| - 1] <= |q| && Unpad(q) == p
  {
    var q := Pad(p);
    assert q[|q| - 1] == |q| - |p|;
  }

  /** Well-formed padding as section 6.3 of RFC 5652 defines it, for 16-byte blocks. */
  predicate WellPadded(p: seq<Byte>) {
    && |p| > 0 && |p| % BlockSize == 0
    && 1 <= p[|p| - 1] <= BlockSize
    && forall i :: |p| - p[|p| - 1] <= i < |p| ==> p[i] == p[|p| - 1]
  }

  /** Every padded plaintext is well padded. */
  lemma PadIsWellPadded(p: seq<Byte>)
    ensures WellPadded(Pad(p))
  {
    var r := Pad(p);
    assert r[|r| - 1] == |r| - |p|;
  }

  /** Every well-padded input is the padding of its unpadded prefix. */
  lemma WellPaddedIsPadded(q: seq<Byte>)
    requires WellPadded(q)
    ensures Pad(Unpad(q)) == q
  {
    var u := Unpad(q);
    var k := q[|q| - 1];
    assert (|u| + k) % BlockSize == 0;
    assert PadLength(|u|) == k;
    var v := Pad(u);
    assert |v| == |q|;
    forall i | 0 <= i < |q| ensures v[i] == q[i] {
      if i < |u| {
        assert v[..|u|][i] == u[i];
      }
    }
  }

  /**
   * AESDecrypt does not check the padding: it strips bytes from an input
   * that no padding step produced, such as a last byte of 0 or pad bytes
   * that disagree.
   */
  lemma UnpadAcceptsMalformedPadding()
    ensures !WellPadded([7, 0]) && Unpad([7, 0]) == [7, 0]
    ensures var b := Repeat(0, 15) + [2]; !WellPadded(b) && Unpad(b) == Repeat(0, 14)
  {
    var b := Repeat(0, 15) + [2];
    assert b[14] == 0;
    assert b[..14] == Repeat(0, 14);
  }
}
