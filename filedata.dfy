/** File data of utils.c as functions of the image: read_file, write_file
    and _truncate map a byte range of a file onto its cluster chain. The
    loops of the source are the tail-recursive `...Run` and `...Seek`
    functions below; FileDataImpl computes the same values with loops. */
module FileData {
  import opened Layout
  import opened Geometry
  import opened Wrappers
  import Store
  import opened Fat
  import opened Errors

  /** A cluster of a chain and a byte position inside it. */
  datatype Pos = Pos(cluster: u16, within: nat)

  // ---------------------------------------------------------------------
  // read_file (utils.c:250-311)

  /** What read_file returns and the bytes it stored at the start of the
      caller's buffer. */
  datatype Got = Got(ret: int, data: seq<byte>)

  /** The first loop of read_file: step one link per whole cluster of
      `offset`, failing as soon as the link reached is not in use. */
  function ReadSeek(img: seq<byte>, g: Geometry, c: u16, offset: nat): (r: Option<Pos>)
    requires Usable(g)
    ensures r.Some? ==> r.value.within < g.sizeCluster
    decreases offset
  {
    if offset < g.sizeCluster then Some(Pos(c, offset))
    else
      var next := NextCluster(img, g, c);
      if !InUse(next) then None else ReadSeek(img, g, next, offset - g.sizeCluster)
  }

  /** The copy loop of read_file and its final read: `size` is what is
      still to be read, `n` the length of the next piece at `coff`; `acc`
      is what the buffer holds so far (its length is `pos`). Each round
      reads `n` bytes but takes `size_cluster` off `size`. */
  function ReadRun(img: seq<byte>, g: Geometry, cur: u16, coff: int, n: nat, size: nat,
                   acc: seq<byte>): Got
    requires Usable(g)
    decreases size
  {
    if size > g.sizeCluster then
      if !Store.Fits(img, coff, n) then Got(-EIO, acc)
      else
        var acc' := acc + Store.Read(img, coff, n);
        var next := NextCluster(img, g, cur);
        var o := ClusterOffset(g, next);
        if o < 0 then Got(-EIO, acc')
        else ReadRun(img, g, next, o, g.sizeCluster, size - g.sizeCluster, acc')
    else if !Store.Fits(img, coff, size) then Got(-EIO, acc)
    else Got(|acc| + size, acc + Store.Read(img, coff, size))
  }

  /** The length read_file settles on: `size`, cut back to the end of the file. */
  function Clamp(fcb: Fcb, offset: nat, size: nat): int {
    if size > fcb.size || offset + size > fcb.size then fcb.size - offset else size
  }

  /** read_file(fcb, buff, offset, size). */
  function ReadFile(img: seq<byte>, g: Geometry, fcb: Fcb, offset: nat, size: nat): Got
    requires Usable(g)
  {
    if offset >= fcb.size || size == 0 then Got(0, [])
    else
      var len := Clamp(fcb, offset, size);
      match ReadSeek(img, g, fcb.firstCluster, offset)
      case None => Got(-EIO, [])
      case Some(p) =>
        var co := ClusterOffset(g, p.cluster);
        if co < 0 then Got(-EIO, [])
        else ReadRun(img, g, p.cluster, co + p.within, g.sizeCluster - p.within, len, [])
  }

  /** The seek loop keeps the in-cluster offset `offset % size_cluster`. */
  lemma {:induction false} ReadSeekWithin(img: seq<byte>, g: Geometry, c: u16, offset: nat)
    requires Usable(g)
    ensures ReadSeek(img, g, c, offset).Some? ==>
      ReadSeek(img, g, c, offset).value.within == offset % g.sizeCluster &&
      ReadSeek(img, g, c, offset).value.cluster == Walk(img, g, c, offset / g.sizeCluster)
    decreases offset
  {
    var sc := g.sizeCluster;
    if offset >= sc {
      var next := NextCluster(img, g, c);
      if InUse(next) {
        ReadSeekWithin(img, g, next, offset - sc);
        DivStep(offset, sc);
        assert Walk(img, g, c, offset / sc) == Walk(img, g, next, offset / sc - 1);
      }
    } else {
      assert offset / sc == 0;
    }
  }

  /** Taking the divisor off the dividend takes one off the quotient. */
  lemma DivStep(x: nat, d: nat)
    requires 0 < d <= x
    ensures (x - d) / d == x / d - 1 && (x - d) % d == x % d
  {
    var q, r := (x - d) / d, (x - d) % d;
    assert x - d == q * d + r;
    assert x == (q + 1) * d + r;
    DivUnique(x, d, q + 1, r);
  }

  /** Quotient and remainder are the only such pair. */
  lemma DivUnique(a: int, d: int, q: int, r: int)
    requires 0 < d && 0 <= r < d && a == q * d + r
    ensures a / d == q && a % d == r
  {
    var q', r' := a / d, a % d;
    assert q * d + r == q' * d + r';
    assert (q - q') * d == q * d - q' * d;
    MulAtLeast(q - q', d);
    MulAtLeast(q' - q, d);
  }

  lemma MulAtLeast(k: int, d: int)
    requires 0 < d
    ensures k >= 1 ==> k * d >= d
  {
    if k >= 1 {
      assert k * d == (k - 1) * d + d;
    }
  }

  /** What the copy loop returns: an I/O failure, or exactly `size` bytes
      more than it started with, less whatever the first piece fell short of
      a cluster when the loop ran at least once. */
  lemma {:induction false} ReadRunLength(img: seq<byte>, g: Geometry, cur: u16, coff: int, n: nat,
                                         size: nat, acc: seq<byte>)
    requires Usable(g) && 0 < n <= g.sizeCluster
    ensures var r := ReadRun(img, g, cur, coff, n, size, acc);
      |acc| <= |r.data| &&
      (r.ret == -EIO || r.ret == |acc| + size - (if size > g.sizeCluster then g.sizeCluster - n else 0)) &&
      (r.ret >= 0 ==> |r.data| == r.ret) &&
      r.data[..|acc|] == acc
    decreases size
  {
    var sc := g.sizeCluster;
    if size > sc && Store.Fits(img, coff, n) {
      var acc' := acc + Store.Read(img, coff, n);
      var next := NextCluster(img, g, cur);
      if ClusterOffset(g, next) >= 0 {
        ReadRunLength(img, g, next, ClusterOffset(g, next), sc, size - sc, acc');
        var r := ReadRun(img, g, cur, coff, n, size, acc);
        assert r == ReadRun(img, g, next, ClusterOffset(g, next), sc, size - sc, acc');
        assert r.data[..|acc'|] == acc';
        assert r.data[..|acc|] == acc'[..|acc|];
      }
    }
  }

  /** read_file returns 0 exactly when the offset is at or past the end of
      the file or nothing is asked for. */
  lemma ReadFileZero(img: seq<byte>, g: Geometry, fcb: Fcb, offset: nat, size: nat)
    requires Usable(g)
    ensures ReadFile(img, g, fcb, offset, size).ret == 0 <==> offset >= fcb.size || size == 0
  {
    ReadFileLength(img, g, fcb, offset, size);
  }

  /** Every outcome of read_file: 0 at or past the end, `-EIO` when the chain
      or the image gives out, and otherwise the clamped length, short by the
      in-cluster offset when the range spans more than one cluster; the
      bytes delivered are as many as the returned count. */
  lemma ReadFileLength(img: seq<byte>, g: Geometry, fcb: Fcb, offset: nat, size: nat)
    requires Usable(g)
    ensures var r := ReadFile(img, g, fcb, offset, size);
      var sc := g.sizeCluster;
      var len := Clamp(fcb, offset, size);
      (r.ret >= 0 ==> |r.data| == r.ret) &&
      (offset >= fcb.size || size == 0 ==> r.ret == 0) &&
      (offset < fcb.size && size > 0 ==>
        0 < len <= size && len == (if size < fcb.size - offset then size else fcb.size - offset) &&
        (r.ret == -EIO || r.ret == (if len > sc then len - offset % sc else len)))
  {
    if offset < fcb.size && size > 0 {
      ClampBounds(fcb, offset, size);
      ReadSeekWithin(img, g, fcb.firstCluster, offset);
      var len := Clamp(fcb, offset, size);
      match ReadSeek(img, g, fcb.firstCluster, offset)
      case None =>
      case Some(p) =>
        if ClusterOffset(g, p.cluster) >= 0 {
          ReadRunLength(img, g, p.cluster, ClusterOffset(g, p.cluster) + p.within,
                        g.sizeCluster - p.within, len, []);
        }
    }
  }

  /** The clamped length is what is left of the file past `offset` or the
      size asked for, whichever is smaller. */
  lemma ClampBounds(fcb: Fcb, offset: nat, size: nat)
    requires offset < fcb.size && size > 0
    ensures var len := Clamp(fcb, offset, size);
      0 < len <= size && len == (if size < fcb.size - offset then size else fcb.size - offset)
  {
  }

  /** The count read_file returns never goes past the end of the file nor
      past the size asked for, and equals the clamped length when the offset
      is cluster-aligned or the clamped length fits in one cluster. */
  lemma ReadFileBound(img: seq<byte>, g: Geometry, fcb: Fcb, offset: nat, size: nat)
    requires Usable(g)
    ensures var r := ReadFile(img, g, fcb, offset, size);
      r.ret <= size && (offset < fcb.size ==> r.ret <= fcb.size - offset) &&
      (r.ret >= 0 && offset < fcb.size && size > 0 &&
        (offset % g.sizeCluster == 0 || Clamp(fcb, offset, size) <= g.sizeCluster) ==>
        r.ret == Clamp(fcb, offset, size))
  {
    ReadFileLength(img, g, fcb, offset, size);
  }

  // ---------------------------------------------------------------------
  // write_file (utils.c:315-386)

  /** The image, the caller's FCB as the operation leaves it, and the
      returned status. */
  datatype Outcome = Outcome(img: seq<byte>, fcb: Fcb, ret: int)

  /** The seek loop of write_file: step one link per whole cluster of
      `offset`, without looking at what the links are. */
  function WriteSeek(img: seq<byte>, g: Geometry, c: u16, offset: nat): (p: Pos)
    requires Usable(g)
    ensures p.within < g.sizeCluster
    decreases offset
  {
    if offset < g.sizeCluster then Pos(c, offset)
    else WriteSeek(img, g, NextCluster(img, g, c), offset - g.sizeCluster)
  }

  lemma {:induction false} WriteSeekIsWalk(img: seq<byte>, g: Geometry, c: u16, offset: nat)
    requires Usable(g)
    ensures WriteSeek(img, g, c, offset) ==
      Pos(Walk(img, g, c, offset / g.sizeCluster), offset % g.sizeCluster)
    decreases offset
  {
    var sc := g.sizeCluster;
    if offset >= sc {
      WriteSeekIsWalk(img, g, NextCluster(img, g, c), offset - sc);
      DivStep(offset, sc);
    } else {
      assert offset / sc == 0;
    }
  }

  /** An image and the count of bytes written. */
  datatype Run = Run(img: seq<byte>, ret: int)

  /** The copy loop of write_file and its final write: `rest` is what is
      still to be written (the source's `buff + pos`, `length` bytes), the
      next piece being `n` bytes at `coff`; `total` is the full length,
      the count returned once the final piece is written. */
  function WriteRun(img: seq<byte>, g: Geometry, cur: u16, coff: int, n: nat,
                    rest: seq<byte>, total: nat): (w: Run)
    requires Usable(g) && 0 < n <= g.sizeCluster
    // the copy loop either fails with `-EIO` or writes all that is left
    ensures (w.ret == -EIO || w.ret == total) && |w.img| == |img|
    decreases |rest|
  {
    if |rest| > g.sizeCluster then
      if !Store.Fits(img, coff, n) then Run(img, -EIO)
      else
        var img' := Store.Write(img, coff, rest[..n]);
        var next := NextCluster(img', g, cur);
        WriteRun(img', g, next, ClusterOffset(g, next), g.sizeCluster, rest[n..], total)
    else if !Store.Fits(img, coff, |rest|) then Run(img, -EIO)
    else Run(Store.Write(img, coff, rest), total)
  }

  /** The number of clusters a file of `end` bytes occupies, computed as the
      source does in `size_t` and stored in a `uint32_t`. */
  function ClustersFor(g: Geometry, end: nat): u32
    requires Usable(g)
  {
    (((end + g.sizeCluster - 1) % TWO_64) / g.sizeCluster) % TWO_32
  }

  /** write_file(fcb, fcb_offset, data, offset, |data|): the checks, the
      extension of the chain and the update of the size, then WriteData. */
  function WriteFile(img: seq<byte>, g: Geometry, fcb: Fcb, fcbOffset: int, data: seq<byte>,
                     offset: nat): Outcome
    requires Usable(g)
  {
    var length := |data|;
    if length == 0 then Outcome(img, fcb, 0)
    else if offset + length >= TWO_64 then Outcome(img, fcb, -EINVAL)
    else
      var want := ClustersFor(g, offset + length);
      var grown := Extend(img, g, fcb, want);
      if grown.r == CLUSTER_END then Outcome(grown.img, grown.fcb, -ENOSPC)
      else
        var newSize: u32 := (offset + length) % TWO_32;
        var f := if newSize > grown.fcb.size then grown.fcb.(size := newSize) else grown.fcb;
        WriteData(grown.img, g, f, fcbOffset, data, offset)
  }

  /** The extension step of write_file: file_new_cluster for the missing
      clusters when the write needs more than the chain has. Only the first
      cluster of the FCB may change, and not at all when END reports that
      no space was found; END is returned only by a call that was made. */
  function Extend(img: seq<byte>, g: Geometry, fcb: Fcb, want: u32): (r: Grow)
    ensures r.fcb == fcb.(firstCluster := r.fcb.firstCluster)
    ensures r.r == CLUSTER_END ==> r.fcb == fcb && want > ClusterCount(img, g, fcb.firstCluster)
    ensures want <= ClusterCount(img, g, fcb.firstCluster) ==> r == Grow(img, fcb, CLUSTER_FREE)
  {
    var have := ClusterCount(img, g, fcb.firstCluster);
    if want > have then FileNewCluster(img, g, fcb, want - have)
    else Grow(img, fcb, CLUSTER_FREE)
  }

  /** The second half of write_file: seek to `offset`, copy `data`, then
      write the FCB back at `fcb_offset`. */
  function WriteData(img: seq<byte>, g: Geometry, f: Fcb, fcbOffset: int, data: seq<byte>,
                     offset: nat): Outcome
    requires Usable(g)
  {
    var p := WriteSeek(img, g, f.firstCluster, offset);
    var w := WriteRun(img, g, p.cluster, ClusterOffset(g, p.cluster) + p.within,
                      g.sizeCluster - p.within, data, |data|);
    if w.ret < 0 then Outcome(w.img, f, -EIO)
    else if !Store.Fits(w.img, fcbOffset, FCB_SIZE) then Outcome(w.img, f, -EIO)
    else Outcome(Store.Write(w.img, fcbOffset, EncodeFcb(f)), f, |data|)
  }

  /** The second half fails with `-EIO` or returns the full length after
      encoding the FCB at `fcb_offset`, the last bytes it writes. */
  lemma WriteDataOutcome(img: seq<byte>, g: Geometry, f: Fcb, fcbOffset: int, data: seq<byte>,
                         offset: nat)
    requires Usable(g)
    ensures var w := WriteData(img, g, f, fcbOffset, data, offset);
      w.fcb == f && |w.img| == |img| && (w.ret == -EIO || w.ret == |data|) &&
      (w.ret == |data| ==>
        Store.Fits(w.img, fcbOffset, FCB_SIZE) &&
        Store.Read(w.img, fcbOffset, FCB_SIZE) == EncodeFcb(f))
  {
    var p := WriteSeek(img, g, f.firstCluster, offset);
    var w := WriteRun(img, g, p.cluster, ClusterOffset(g, p.cluster) + p.within,
                      g.sizeCluster - p.within, data, |data|);
    if w.ret >= 0 && Store.Fits(w.img, fcbOffset, FCB_SIZE) {
      Store.ReadAfterWrite(w.img, fcbOffset, EncodeFcb(f));
    }
  }

  /** What a non-empty write_file of `n` bytes at `offset` can end with:
      `-EINVAL`, `-ENOSPC`, `-EIO`, or the full count, in which case the
      size is raised to the end of the write (as a `uint32_t`), nothing but
      the first cluster and the size differ from `fcb`, and the FCB is
      encoded at `fcb_offset`. */
  ghost predicate Wrote(w: Outcome, fcb: Fcb, fcbOffset: int, n: nat, offset: nat) {
    var end := (offset + n) % TWO_32;
    (w.ret == -EINVAL || w.ret == -ENOSPC || w.ret == -EIO || w.ret == n) &&
    (n > 0 && w.ret == n ==>
      w.fcb.size == (if end > fcb.size then end else fcb.size) &&
      w.fcb.(firstCluster := fcb.firstCluster, size := fcb.size) == fcb &&
      Store.Fits(w.img, fcbOffset, FCB_SIZE) &&
      Store.Read(w.img, fcbOffset, FCB_SIZE) == EncodeFcb(w.fcb))
  }

  /** Every outcome of write_file: 0 for an empty write and `-EINVAL` when
      `offset + length` overflows, both leaving everything unchanged;
      `-ENOSPC` with the FCB unchanged when the file cannot be extended;
      otherwise `-EIO` or the full length with the FCB persisted (Wrote),
      the FCB being the last thing written. */
  lemma WriteFileOutcome(img: seq<byte>, g: Geometry, fcb: Fcb, fcbOffset: int, data: seq<byte>,
                         offset: nat)
    requires Usable(g)
    ensures var w := WriteFile(img, g, fcb, fcbOffset, data, offset);
      (|data| == 0 ==> w == Outcome(img, fcb, 0)) &&
      (|data| > 0 && offset + |data| >= TWO_64 ==> w == Outcome(img, fcb, -EINVAL)) &&
      (w.ret == -ENOSPC ==> w.fcb == fcb) &&
      Wrote(w, fcb, fcbOffset, |data|, offset)
  {
    var length := |data|;
    if length > 0 && offset + length < TWO_64 {
      var w := WriteFile(img, g, fcb, fcbOffset, data, offset);
      var grown := Extend(img, g, fcb, ClustersFor(g, offset + length));
      if grown.r == CLUSTER_END {
        assert w == Outcome(grown.img, grown.fcb, -ENOSPC);
      } else {
        var newSize: u32 := (offset + length) % TWO_32;
        var f := if newSize > grown.fcb.size then grown.fcb.(size := newSize) else grown.fcb;
        assert w == WriteData(grown.img, g, f, fcbOffset, data, offset);
        WriteDataOutcome(grown.img, g, f, fcbOffset, data, offset);
      }
    }
  }

  // ---------------------------------------------------------------------
  // _truncate (utils.c:522-561)

  /** _truncate(file, fcb_offset, offset). The cluster count is adjusted
      first; growing then zero-fills `[old_size, new_size)` with write_file,
      which persists the FCB; shrinking only sets the size of the caller's
      copy. */
  function Truncate(img: seq<byte>, g: Geometry, fcb: Fcb, fcbOffset: int, offset: nat): Outcome
    requires Usable(g)
  {
    var want := TruncateClusters(g, offset);
    var oldSize := fcb.size;
    var newSize: u32 := offset % TWO_32;
    var a := Adjust(img, g, fcb, want);
    if a.ret < 0 then Outcome(a.img, a.fcb, a.ret)
    else if oldSize == newSize then Outcome(a.img, a.fcb, 0)
    else if oldSize < newSize then ZeroGrow(a.img, g, a.fcb, fcbOffset, oldSize, newSize)
    else Outcome(a.img, a.fcb.(size := newSize), 0)
  }

  /** The growing branch of _truncate: write_file of `new_size - old_size`
      zero bytes at the old size, then Filled. */
  function ZeroGrow(img: seq<byte>, g: Geometry, f: Fcb, fcbOffset: int, oldSize: u32, newSize: u32): Outcome
    requires Usable(g) && oldSize < newSize
  {
    var w := WriteFile(img, g, f, fcbOffset, Store.Zeros(newSize - oldSize), oldSize);
    Filled(w, newSize - oldSize, newSize)
  }

  /** The end of a growing _truncate: write_file's count, compared as an
      unsigned value with the growth, decides between passing its status on
      and setting the new size. */
  function Filled(w: Outcome, diff: nat, newSize: u32): Outcome {
    if w.ret % TWO_32 != diff then w else Outcome(w.img, w.fcb.(size := newSize), 0)
  }

  /** The cluster count _truncate asks adjust_cluster_count for. */
  function TruncateClusters(g: Geometry, offset: nat): u32
    requires Usable(g)
  {
    ((offset + g.sizeCluster - 1) / g.sizeCluster) % TWO_32
  }

  /** A failed adjustment is passed on; otherwise, when the size does not
      grow, the FCB is not written back: the image is the one the adjustment
      left, and only the caller's copy gets the new size. */
  lemma TruncateNoGrowth(img: seq<byte>, g: Geometry, fcb: Fcb, fcbOffset: int, offset: nat)
    requires Usable(g)
    ensures var t := Truncate(img, g, fcb, fcbOffset, offset);
      var a := Adjust(img, g, fcb, TruncateClusters(g, offset));
      (a.ret < 0 ==> t == Outcome(a.img, a.fcb, a.ret)) &&
      (a.ret >= 0 && offset % TWO_32 <= fcb.size ==>
        t == Outcome(a.img, a.fcb.(size := offset % TWO_32), 0))
  {
  }

  /** When the size grows and the zero-fill succeeds, write_file has
      persisted the FCB with the new size and nothing but the first cluster
      and the size differ from the FCB given. The growth stays below
      2^32 - 28 bytes so that no negative status of write_file reads as the
      full count once made unsigned. */
  lemma TruncateGrowth(img: seq<byte>, g: Geometry, fcb: Fcb, fcbOffset: int, offset: nat)
    requires Usable(g)
    requires Adjust(img, g, fcb, TruncateClusters(g, offset)).ret >= 0
    requires fcb.size < offset % TWO_32 < fcb.size + TWO_32 - ENOSPC
    ensures var t := Truncate(img, g, fcb, fcbOffset, offset);
      t.ret == 0 ==>
        t.fcb.size == offset % TWO_32 &&
        t.fcb.(firstCluster := fcb.firstCluster) == fcb.(size := offset % TWO_32) &&
        Store.Fits(t.img, fcbOffset, FCB_SIZE) &&
        Store.Read(t.img, fcbOffset, FCB_SIZE) == EncodeFcb(t.fcb)
  {
    var a := Adjust(img, g, fcb, TruncateClusters(g, offset));
    TruncateFills(img, g, fcb, fcbOffset, offset);
    GrowthPersisted(a.img, g, a.fcb, fcb, fcbOffset, offset % TWO_32);
  }

  /** The zero-fill from the old size to `newSize` on the adjusted FCB `a`. */
  lemma GrowthPersisted(img: seq<byte>, g: Geometry, a: Fcb, fcb: Fcb, fcbOffset: int, newSize: u32)
    requires Usable(g)
    requires a == fcb.(firstCluster := a.firstCluster)
    requires fcb.size < newSize < fcb.size + TWO_32 - ENOSPC
    ensures var t := ZeroGrow(img, g, a, fcbOffset, fcb.size, newSize);
      t.ret == 0 ==>
        t.fcb.size == newSize &&
        t.fcb.(firstCluster := fcb.firstCluster) == fcb.(size := newSize) &&
        Store.Fits(t.img, fcbOffset, FCB_SIZE) &&
        Store.Read(t.img, fcbOffset, FCB_SIZE) == EncodeFcb(t.fcb)
  {
    var z := Store.Zeros(newSize - fcb.size);
    var w := WriteFile(img, g, a, fcbOffset, z, fcb.size);
    WriteFileOutcome(img, g, a, fcbOffset, z, fcb.size);
    FillPersisted(w, a, fcb, fcbOffset, |z|, newSize);
  }

  /** A growing _truncate whose adjustment succeeded is the zero-fill. */
  lemma TruncateFills(img: seq<byte>, g: Geometry, fcb: Fcb, fcbOffset: int, offset: nat)
    requires Usable(g)
    requires Adjust(img, g, fcb, TruncateClusters(g, offset)).ret >= 0
    requires fcb.size < offset % TWO_32
    ensures var a := Adjust(img, g, fcb, TruncateClusters(g, offset));
      Truncate(img, g, fcb, fcbOffset, offset) == ZeroGrow(a.img, g, a.fcb, fcbOffset, fcb.size, offset % TWO_32)
  {
  }

  /** The zero-fill of a growing _truncate, given what WriteFileOutcome
      states of write_file's outcome `w`. */
  lemma FillPersisted(w: Outcome, a: Fcb, fcb: Fcb, fcbOffset: int, n: nat, newSize: u32)
    requires fcb.size < newSize < fcb.size + TWO_32 - ENOSPC && n == newSize - fcb.size
    requires a == fcb.(firstCluster := a.firstCluster)
    requires Wrote(w, a, fcbOffset, n, fcb.size)
    ensures var t := Filled(w, n, newSize);
      t.ret == 0 ==>
        t.fcb.size == newSize &&
        t.fcb.(firstCluster := fcb.firstCluster) == fcb.(size := newSize) &&
        Store.Fits(t.img, fcbOffset, FCB_SIZE) &&
        Store.Read(t.img, fcbOffset, FCB_SIZE) == EncodeFcb(t.fcb)
  {
    assert (fcb.size + n) % TWO_32 == newSize;
    if w.ret % TWO_32 == n {
      assert w.ret == n;
      assert w.fcb.(size := newSize) == w.fcb;
    }
  }
}
