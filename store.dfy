/** The backing image as a fixed-size byte store (io.c). A transfer happens
    only when the whole byte range lies inside the image; otherwise nothing is
    transferred and the call reports a short count of 0, which is what makes
    the engine's `-EIO` branches reachable. */
module Store {
  import opened Layout

  /** The range `[off, off + n)` lies inside the image. */
  predicate Fits(img: seq<byte>, off: int, n: int) {
    0 <= off && 0 <= n && off + n <= |img|
  }

  /** Bytes returned by `io_read` (the count is `n` exactly when `Fits`). */
  function Read(img: seq<byte>, off: int, n: int): (r: seq<byte>)
    requires Fits(img, off, n)
    ensures |r| == n
    ensures forall k :: 0 <= k < n ==> r[k] == img[off + k]
  {
    img[off..off + n]
  }

  /** The count `io_read`/`io_write` report for a transfer of `n` bytes at `off`. */
  function Count(img: seq<byte>, off: int, n: nat): (c: nat)
    ensures c == n <==> (Fits(img, off, n) || n == 0)
  {
    if Fits(img, off, n) then n else 0
  }

  /** The image after `io_write(data, off, |data|)`. */
  function Write(img: seq<byte>, off: int, data: seq<byte>): (r: seq<byte>)
    ensures |r| == |img|
    ensures forall k :: 0 <= k < |img| ==>
      r[k] == (if Fits(img, off, |data|) && off <= k < off + |data| then data[k - off] else img[k])
  {
    if Fits(img, off, |data|) then img[..off] + data + img[off + |data|..] else img
  }

  /** A write is read back exactly. */
  lemma ReadAfterWrite(img: seq<byte>, off: int, data: seq<byte>)
    requires Fits(img, off, |data|)
    ensures Read(Write(img, off, data), off, |data|) == data
  {
  }

  /** A write leaves every range it does not overlap unchanged. */
  lemma ReadAfterWriteElsewhere(img: seq<byte>, off: int, data: seq<byte>, p: int, n: int)
    requires Fits(img, p, n)
    requires p + n <= off || off + |data| <= p
    ensures Read(Write(img, off, data), p, n) == Read(img, p, n)
  {
  }

  function Zeros(n: nat): (r: seq<byte>)
    ensures |r| == n && forall k :: 0 <= k < n ==> r[k] == 0
  {
    seq(n, _ => 0)
  }
}
