/** read_file, write_file and _truncate of utils.c on the volume's byte
    array, with the source's seek and copy loops. Each method computes the
    function of the same name in FileData. */
module FileDataImpl {
  import opened Layout
  import opened Geometry
  import Store
  import opened Fat
  import opened Errors
  import opened FileData
  import opened Volume
  import FatImpl

  // ---------------------------------------------------------------------
  // read_file (utils.c:250-311)

  /** The copy loop of read_file and its final read, from `n` bytes at
      `coff` in cluster `cur`, with `size` bytes still to read. */
  method ReadCopy(v: Volume, cur: u16, coff: int, n: nat, size: nat) returns (r: Got)
    requires Usable(v.geo) && 0 < n && 0 < size
    ensures r == ReadRun(v.image[..], v.geo, cur, coff, n, size, [])
  {
    ghost var img := v.image[..];
    var g := v.geo;
    var acc: seq<byte> := [];
    var c, o, m, left := cur, coff, n, size;
    while left > g.sizeCluster
      invariant 0 < m && 0 < left
      invariant ReadRun(img, g, c, o, m, left, acc) == ReadRun(img, g, cur, coff, n, size, [])
      decreases left
    {
      var count, bytes := v.IoRead(o, m);
      if count != m {
        return Got(-EIO, acc);
      }
      acc := acc + bytes;
      left := left - g.sizeCluster;
      c := FatImpl.NextCluster(v, c);
      o := ClusterOffset(g, c);
      if o < 0 {
        return Got(-EIO, acc);
      }
      m := g.sizeCluster;
    }
    var count, bytes := v.IoRead(o, left);
    if count != left {
      return Got(-EIO, acc);
    }
    return Got(|acc| + left, acc + bytes);
  }

  /** read_file(fcb, buff, offset, size): the count returned and the bytes
      placed at the start of `buff`. */
  method ReadFile(v: Volume, fcb: Fcb, offset: nat, size: nat) returns (r: Got)
    requires Usable(v.geo)
    ensures r == FileData.ReadFile(v.image[..], v.geo, fcb, offset, size)
  {
    if offset >= fcb.size || size == 0 {
      return Got(0, []);
    }
    ghost var img := v.image[..];
    var g := v.geo;
    var len := Clamp(fcb, offset, size);
    var cluster := fcb.firstCluster;
    var within: nat := offset;
    while within >= g.sizeCluster
      invariant ReadSeek(img, g, cluster, within) == ReadSeek(img, g, fcb.firstCluster, offset)
      decreases within
    {
      within := within - g.sizeCluster;
      cluster := FatImpl.NextCluster(v, cluster);
      if !InUse(cluster) {
        return Got(-EIO, []);
      }
    }
    var co := ClusterOffset(g, cluster);
    if co < 0 {
      return Got(-EIO, []);
    }
    r := ReadCopy(v, cluster, co + within, g.sizeCluster - within, len);
  }

  // ---------------------------------------------------------------------
  // write_file (utils.c:315-386)

  /** The copy loop of write_file and its final write, from `n` bytes at
      `coff` in cluster `cur`; `data` is not empty. `rest` is the source's
      `buff + pos`, `length` bytes long. */
  method WriteCopy(v: Volume, cur: u16, coff: int, n: nat, data: seq<byte>) returns (ret: int)
    requires Usable(v.geo) && 0 < n <= v.geo.sizeCluster && 0 < |data|
    modifies v.image
    ensures var w := WriteRun(old(v.image[..]), v.geo, cur, coff, n, data, |data|);
      v.image[..] == w.img && ret == w.ret
  {
    var g := v.geo;
    ghost var total := WriteRun(v.image[..], g, cur, coff, n, data, |data|);
    var c, o, m := cur, coff, n;
    var rest := data;
    while |rest| > g.sizeCluster
      invariant 0 < m <= g.sizeCluster && 0 < |rest|
      invariant WriteRun(v.image[..], g, c, o, m, rest, |data|) == total
      decreases |rest|
    {
      ghost var before := v.image[..];
      var count := v.IoWrite(o, rest[..m]);
      if count != m {
        return -EIO;
      }
      WriteRunStep(before, g, c, o, m, rest, |data|);
      rest := rest[m..];
      c := FatImpl.NextCluster(v, c);
      o := ClusterOffset(g, c);
      m := g.sizeCluster;
    }
    ghost var before := v.image[..];
    var count := v.IoWrite(o, rest);
    if count != |rest| {
      assert total == Run(before, -EIO);
      return -EIO;
    }
    assert total == Run(v.image[..], |data|);
    return |data|;
  }

  /** One round of the copy loop: the piece is written, then the walk goes
      on from the next cluster of the image as written. */
  lemma WriteRunStep(img: seq<byte>, g: Geometry, c: u16, o: int, m: nat, rest: seq<byte>, total: nat)
    requires Usable(g) && 0 < m <= g.sizeCluster < |rest|
    requires Store.Fits(img, o, m)
    ensures var img' := Store.Write(img, o, rest[..m]);
      var next := NextCluster(img', g, c);
      WriteRun(img, g, c, o, m, rest, total) == WriteRun(img', g, next, ClusterOffset(g, next), g.sizeCluster, rest[m..], total)
  {
  }

  /** The seek loop of write_file. */
  method WriteSeekLoop(v: Volume, first: u16, offset: nat) returns (p: Pos)
    requires Usable(v.geo)
    ensures p == WriteSeek(v.image[..], v.geo, first, offset)
  {
    var g := v.geo;
    var cur := first;
    var within: nat := offset;
    while within >= g.sizeCluster
      invariant WriteSeek(v.image[..], g, cur, within) == WriteSeek(v.image[..], g, first, offset)
      decreases within
    {
      cur := FatImpl.NextCluster(v, cur);
      within := within - g.sizeCluster;
    }
    return Pos(cur, within);
  }

  /** The second half of write_file: seek, copy, write the FCB back. */
  method WriteBack(v: Volume, f: Fcb, fcbOffset: int, data: seq<byte>, offset: nat) returns (ret: int)
    requires Usable(v.geo) && 0 < |data|
    modifies v.image
    ensures var w := WriteData(old(v.image[..]), v.geo, f, fcbOffset, data, offset);
      v.image[..] == w.img && ret == w.ret
  {
    var g := v.geo;
    var p := WriteSeekLoop(v, f.firstCluster, offset);
    ret := WriteCopy(v, p.cluster, ClusterOffset(g, p.cluster) + p.within, g.sizeCluster - p.within, data);
    if ret < 0 {
      return -EIO;
    }
    ghost var copied := v.image[..];
    var count := v.IoWrite(fcbOffset, EncodeFcb(f));
    if count != FCB_SIZE {
      assert !Store.Fits(copied, fcbOffset, FCB_SIZE);
      return -EIO;
    }
    return |data|;
  }

  /** write_file(fcb, fcb_offset, data, offset, |data|): the caller's FCB
      as it leaves it and the returned status. */
  method WriteFile(v: Volume, fcb: Fcb, fcbOffset: int, data: seq<byte>, offset: nat)
    returns (file: Fcb, ret: int)
    requires Usable(v.geo)
    modifies v.image
    ensures var w := FileData.WriteFile(old(v.image[..]), v.geo, fcb, fcbOffset, data, offset);
      v.image[..] == w.img && file == w.fcb && ret == w.ret
  {
    file := fcb;
    if |data| == 0 {
      return file, 0;
    }
    if offset + |data| >= TWO_64 {
      return file, -EINVAL;
    }
    var want := ClustersFor(v.geo, offset + |data|);
    var have := FatImpl.ClusterCount(v, fcb);
    if want > have {
      var r;
      file, r := FatImpl.FileNewCluster(v, fcb, want - have);
      if r == CLUSTER_END {
        return file, -ENOSPC;
      }
    }
    var newSize: u32 := (offset + |data|) % TWO_32;
    if newSize > file.size {
      file := file.(size := newSize);
    }
    ret := WriteBack(v, file, fcbOffset, data, offset);
  }

  // ---------------------------------------------------------------------
  // _truncate (utils.c:522-561)

  /** _truncate(file, fcb_offset, offset): the caller's FCB as it leaves it
      and the returned status. */
  method Truncate(v: Volume, fcb: Fcb, fcbOffset: int, offset: nat) returns (file: Fcb, ret: int)
    requires Usable(v.geo)
    modifies v.image
    ensures var t := FileData.Truncate(old(v.image[..]), v.geo, fcb, fcbOffset, offset);
      v.image[..] == t.img && file == t.fcb && ret == t.ret
  {
    var want := TruncateClusters(v.geo, offset);
    var oldSize := fcb.size;
    var newSize: u32 := offset % TWO_32;
    file, ret := FatImpl.AdjustClusterCount(v, fcb, want);
    if ret < 0 {
      return;
    }
    if oldSize == newSize {
      return file, 0;
    }
    if oldSize < newSize {
      file, ret := ZeroGrowth(v, file, fcbOffset, oldSize, newSize);
      return;
    }
    return file.(size := newSize), 0;
  }

  /** The growing branch of _truncate: write_file of `new_size - old_size`
      zero bytes at the old size, then the size set when all were written. */
  method ZeroGrowth(v: Volume, f: Fcb, fcbOffset: int, oldSize: u32, newSize: u32) returns (file: Fcb, ret: int)
    requires Usable(v.geo) && oldSize < newSize
    modifies v.image
    ensures var t := ZeroGrow(old(v.image[..]), v.geo, f, fcbOffset, oldSize, newSize);
      v.image[..] == t.img && file == t.fcb && ret == t.ret
  {
    var n;
    file, n := WriteFile(v, f, fcbOffset, Store.Zeros(newSize - oldSize), oldSize);
    if n % TWO_32 != newSize - oldSize {
      return file, n;
    }
    return file.(size := newSize), 0;
  }
}
