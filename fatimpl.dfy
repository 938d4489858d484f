/** The chain manager of utils.c on the volume's byte array: each method
    runs the source's loop over io_read and io_write and computes exactly
    the function of the same name in Fat. */
module FatImpl {
  import opened Layout
  import opened Geometry
  import Store
  import Fat
  import Errors
  import opened Volume

  /** next_cluster(c). */
  method NextCluster(v: Volume, c: u16) returns (r: u16)
    ensures r == Fat.NextCluster(v.image[..], v.geo, c)
  {
    r := CLUSTER_END;
    if InUse(c) && c < Fat.Entries(v.geo) {
      var n, bytes := v.IoRead(Fat.SlotOffset(v.geo, c), 2);
      if n == 2 {
        Fat.NextClusterReadsSlot(v.image[..], v.geo, c);
        r := ToU16(bytes);
      }
    }
  }

  /** Writing `value` into the FAT slot of `c`: the count io_write reports. */
  method WriteSlot(v: Volume, c: int, value: u16) returns (count: nat)
    modifies v.image
    ensures v.image[..] == Fat.WriteSlot(old(v.image[..]), v.geo, c, value)
    ensures count == 2 <==> Fat.SlotFits(old(v.image[..]), v.geo, c)
  {
    count := v.IoWrite(Fat.SlotOffset(v.geo, c), U16Bytes(value));
  }

  /** get_cluster_count(fcb): the links followed from the first cluster
      while they stay in use, at most Bound of them. */
  method ClusterCount(v: Volume, fcb: Fcb) returns (count: nat)
    ensures count == Fat.ClusterCount(v.image[..], v.geo, fcb.firstCluster)
    ensures count <= Fat.Bound(v.geo)
  {
    ghost var img := v.image[..];
    ghost var chain := Fat.Chain(img, v.geo, fcb.firstCluster, Fat.Bound(v.geo));
    count := 0;
    var cur := fcb.firstCluster;
    while InUse(cur) && count < Fat.Bound(v.geo)
      invariant count <= Fat.Bound(v.geo)
      invariant count + |Fat.Chain(img, v.geo, cur, Fat.Bound(v.geo) - count)| == |chain|
      decreases Fat.Bound(v.geo) - count
    {
      count := count + 1;
      cur := NextCluster(v, cur);
    }
  }

  /** release_cluster(c). The loop re-reads the slot it has just cleared,
      so it runs once at most; a failed write, where the source aborts,
      leaves the image as it was. */
  method ReleaseCluster(v: Volume, c: u16)
    modifies v.image
    ensures v.image[..] == Fat.Release(old(v.image[..]), v.geo, c)
  {
    var next := c;
    while InUse(next)
      invariant InUse(next) ==> next == c && v.image[..] == old(v.image[..])
      invariant !InUse(next) ==> v.image[..] == Fat.Release(old(v.image[..]), v.geo, c)
      decreases if InUse(next) then 1 else 0
    {
      var n := WriteSlot(v, next, CLUSTER_FREE);
      if n != 2 {
        return;
      }
      Fat.ReleaseStopsAfterHead(old(v.image[..]), v.geo, c);
      next := NextCluster(v, next);
    }
  }

  /** The inner `for` loop of get_free_cluster_num: the lowest index whose
      slot reads FREE and that names a data cluster, or Entries. */
  method FindFreeSlot(v: Volume) returns (i: nat)
    ensures i == Fat.FirstFree(v.image[..], v.geo, 0)
  {
    i := 0;
    while i < Fat.Entries(v.geo)
      invariant i <= Fat.Entries(v.geo)
      invariant Fat.FirstFree(v.image[..], v.geo, i) == Fat.FirstFree(v.image[..], v.geo, 0)
      decreases Fat.Entries(v.geo) - i
    {
      var next := NextCluster(v, Fat.Trunc16(i));
      if next == CLUSTER_FREE && Fat.ClusterOffset(v.geo, Fat.Trunc16(i)) >= 0 {
        return;
      }
      i := i + 1;
    }
  }

  /** One round of `while (count--)` in get_free_cluster_num: claim the
      lowest free slot by storing the previous head `first` in it, or give
      up (releasing `first`) when there is none. */
  method ClaimRound(v: Volume, first: u16) returns (done: bool, head: u16)
    modifies v.image
    ensures Claimed(old(v.image[..]), v.image[..], v.geo, first, done, head)
  {
    var i := FindFreeSlot(v);
    if i == Fat.Entries(v.geo) {
      ReleaseCluster(v, first);
      return true, CLUSTER_END;
    }
    var n := WriteSlot(v, i, first);
    if n != 2 {
      return true, Fat.EIO_U16;
    }
    return false, Fat.Trunc16(i);
  }

  /** What one round does to the image `img`, leaving `img'`. */
  ghost predicate Claimed(img: seq<byte>, img': seq<byte>, g: Geometry, first: u16, done: bool, head: u16) {
    var i := Fat.FirstFree(img, g, 0);
    if i == Fat.Entries(g) then done && head == CLUSTER_END && img' == Fat.Release(img, g, first)
    else if !Fat.SlotFits(img, g, i) then done && head == Fat.EIO_U16 && img' == img
    else !done && head == Fat.Trunc16(i) && img' == Fat.WriteSlot(img, g, i, first)
  }

  /** A round is the first of the rounds still to run. */
  lemma ClaimStep(img: seq<byte>, img': seq<byte>, g: Geometry, first: u16, left: nat, done: bool, head: u16)
    requires Claimed(img, img', g, first, done, head)
    ensures Fat.AllocRounds(img, g, first, left + 1) ==
      if done then Fat.Alloc(img', head) else Fat.AllocRounds(img', g, head, left)
  {
  }

  /** get_free_cluster_num(count). */
  method GetFreeClusterNum(v: Volume, count: u32) returns (first: u16)
    modifies v.image
    ensures var a := Fat.FreeClusterNum(old(v.image[..]), v.geo, count);
      v.image[..] == a.img && first == a.first
  {
    if count == 0 {
      return CLUSTER_END;
    }
    first := CLUSTER_END;
    var left: nat := count;
    while left > 0
      invariant Fat.AllocRounds(v.image[..], v.geo, first, left) == Fat.AllocRounds(old(v.image[..]), v.geo, CLUSTER_END, count)
      decreases left
    {
      left := left - 1;
      ghost var before := v.image[..];
      var done, head := ClaimRound(v, first);
      ClaimStep(before, v.image[..], v.geo, first, left, done, head);
      if done {
        return head;
      }
      first := head;
    }
  }

  /** The zero-fill loop of file_new_cluster over the new chain. */
  method ZeroFill(v: Volume, first: u16) returns (ok: bool)
    requires Usable(v.geo)
    modifies v.image
    ensures var z := Fat.ZeroFill(old(v.image[..]), v.geo, first, Fat.Bound(v.geo));
      v.image[..] == z.img && ok == z.ok
  {
    var cur := first;
    var fuel := Fat.Bound(v.geo);
    while InUse(cur) && fuel > 0
      invariant Fat.ZeroFill(v.image[..], v.geo, cur, fuel) == Fat.ZeroFill(old(v.image[..]), v.geo, first, Fat.Bound(v.geo))
      decreases fuel
    {
      var n := v.IoWrite(Fat.ClusterOffset(v.geo, cur), Store.Zeros(v.geo.sizeCluster));
      if n != v.geo.sizeCluster {
        return false;
      }
      cur := NextCluster(v, cur);
      fuel := fuel - 1;
    }
    return true;
  }

  /** The loop of file_new_cluster that walks to the last in-use cluster. */
  method Tail(v: Volume, first: u16) returns (cur: u16)
    ensures cur == Fat.Tail(v.image[..], v.geo, first, Fat.Bound(v.geo))
  {
    cur := first;
    var fuel := Fat.Bound(v.geo);
    while fuel > 0
      invariant Fat.Tail(v.image[..], v.geo, cur, fuel) == Fat.Tail(v.image[..], v.geo, first, Fat.Bound(v.geo))
      decreases fuel
    {
      var next := NextCluster(v, cur);
      if !InUse(next) {
        return;
      }
      cur := next;
      fuel := fuel - 1;
    }
  }

  /** file_new_cluster(file, count): the caller's FCB as it leaves it and
      the returned cluster number. */
  method FileNewCluster(v: Volume, fcb: Fcb, count: u32) returns (file: Fcb, r: u16)
    requires Usable(v.geo)
    modifies v.image
    ensures var gr := Fat.FileNewCluster(old(v.image[..]), v.geo, fcb, count);
      v.image[..] == gr.img && file == gr.fcb && r == gr.r
  {
    file := fcb;
    var newCluster := GetFreeClusterNum(v, count);
    if newCluster == CLUSTER_END {
      return file, CLUSTER_END;
    }
    var ok := ZeroFill(v, newCluster);
    if !ok {
      ReleaseCluster(v, newCluster);
      return file, Fat.EIO_U16;
    }
    if InUse(fcb.firstCluster) {
      var cur := Tail(v, fcb.firstCluster);
      var n := WriteSlot(v, cur, newCluster);
      if n != 2 {
        ReleaseCluster(v, newCluster);
        return file, Fat.EIO_U16;
      }
    } else {
      file := file.(firstCluster := newCluster);
    }
    r := newCluster;
  }

  /** adjust_cluster_count(fcb, new_count): the caller's FCB as it leaves
      it and the returned status. */
  method AdjustClusterCount(v: Volume, fcb: Fcb, newCount: u32) returns (file: Fcb, ret: int)
    requires Usable(v.geo)
    modifies v.image
    ensures var a := Fat.Adjust(old(v.image[..]), v.geo, fcb, newCount);
      v.image[..] == a.img && file == a.fcb && ret == a.ret
  {
    file := fcb;
    var oldCount := ClusterCount(v, fcb);
    if oldCount == newCount {
      return file, 0;
    } else if oldCount > newCount {
      ghost var img := v.image[..];
      var cur := fcb.firstCluster;
      var pre := CLUSTER_END;
      var counter: nat := newCount;
      while counter > 0
        invariant counter <= newCount && v.image[..] == img
        invariant cur == Fat.Walk(img, v.geo, fcb.firstCluster, newCount - counter)
        invariant pre == if counter == newCount then CLUSTER_END
                         else Fat.Walk(img, v.geo, fcb.firstCluster, newCount - counter - 1)
        decreases counter
      {
        Fat.WalkStep(img, v.geo, fcb.firstCluster, newCount - counter);
        counter := counter - 1;
        pre := cur;
        cur := NextCluster(v, cur);
      }
      if pre == CLUSTER_END {
        file := file.(firstCluster := CLUSTER_END);
      } else {
        var n := WriteSlot(v, pre, CLUSTER_FREE);
        if n != 2 {
          return file, -Errors.EIO;
        }
      }
      ReleaseCluster(v, cur);
      ret := 0;
    } else {
      var r;
      file, r := FileNewCluster(v, fcb, newCount - oldCount);
      ret := if r == CLUSTER_END then -Errors.ENOSPC else 0;
    }
  }
}
