/** The FAT chain manager of utils.c as functions of the image: reading and
    writing 16-bit FAT links, chains, counting, releasing and allocating
    clusters. The methods in FatImpl compute exactly these functions. */
module Fat {
  import opened Layout
  import opened Geometry
  import opened Wrappers
  import Store
  import opened Errors

  /** `-EIO` returned through a `uint16_t` result. */
  const EIO_U16: u16 := 0x1_0000 - 5

  /** Number of 16-bit slots in one FAT copy (`size_fat / sizeof(uint16_t)`). */
  function Entries(g: Geometry): nat { g.sizeFat / 2 }

  /** Step bound for chain walks the source leaves unbounded: one more than
      the number of FAT slots. */
  function Bound(g: Geometry): nat { Entries(g) + 1 }

  /** Byte offset of the FAT slot of cluster `c`. */
  function SlotOffset(g: Geometry, c: int): int { g.offsetFat + 2 * c }

  predicate SlotFits(img: seq<byte>, g: Geometry, c: int) {
    Store.Fits(img, SlotOffset(g, c), 2)
  }

  /** A cluster whose slot next_cluster and get_cluster_offset will look at. */
  predicate Addressable(g: Geometry, c: int) {
    InUse(c) && c < Entries(g)
  }

  /** next_cluster (utils.c:85-97): END outside [MIN, MAX], at or beyond the
      last FAT slot, or when the slot cannot be read; the stored link otherwise. */
  function NextCluster(img: seq<byte>, g: Geometry, c: u16): u16 {
    if Addressable(g, c) && SlotFits(img, g, c)
    then img[SlotOffset(g, c)] as int + 0x100 * (img[SlotOffset(g, c) + 1] as int)
    else CLUSTER_END
  }

  /** The link next_cluster reads is the little-endian value of the slot's two bytes. */
  lemma NextClusterReadsSlot(img: seq<byte>, g: Geometry, c: u16)
    requires Addressable(g, c) && SlotFits(img, g, c)
    ensures NextCluster(img, g, c) == ToU16(Store.Read(img, SlotOffset(g, c), 2))
  {
  }

  /** get_cluster_offset (utils.c:100-107). */
  function ClusterOffset(g: Geometry, c: u16): int {
    if Addressable(g, c) then g.offsetData + g.sizeCluster * (c - 2) else -1
  }

  /** The image after writing `v` into the FAT slot of `c`. */
  function WriteSlot(img: seq<byte>, g: Geometry, c: int, v: u16): seq<byte> {
    Store.Write(img, SlotOffset(g, c), U16Bytes(v))
  }

  lemma NextClusterOutside(img: seq<byte>, g: Geometry, c: u16)
    ensures !Addressable(g, c) ==> NextCluster(img, g, c) == CLUSTER_END
    ensures ClusterOffset(g, c) >= 0 <==> Addressable(g, c)
    ensures Addressable(g, c) ==> ClusterOffset(g, c) == g.offsetData + g.sizeCluster * (c - 2)
  {
  }

  /** Writing one slot and reading a slot: the written value comes back
      from that slot, every other slot reads as before. */
  lemma NextAfterWriteSlot(img: seq<byte>, g: Geometry, c: int, v: u16, d: u16)
    ensures NextCluster(WriteSlot(img, g, c, v), g, d) ==
      if d == c && Addressable(g, d) && SlotFits(img, g, c) then v else NextCluster(img, g, d)
  {
    var o := SlotOffset(g, d);
    if Addressable(g, d) && SlotFits(img, g, d) && d == c {
      assert WriteSlot(img, g, c, v)[o] == v % 0x100;
      assert WriteSlot(img, g, c, v)[o + 1] == v / 0x100;
    }
  }

  /** A write that avoids the first FAT copy changes no link. */
  lemma NextAfterWriteOutsideFat(img: seq<byte>, g: Geometry, off: int, data: seq<byte>, d: u16)
    requires off + |data| <= g.offsetFat || g.offsetFat + g.sizeFat <= off
    ensures NextCluster(Store.Write(img, off, data), g, d) == NextCluster(img, g, d)
  {

  }

  /** Only bytes of the first FAT copy may differ. */
  predicate SameOutsideFat(a: seq<byte>, b: seq<byte>, g: Geometry) {
    |a| == |b| &&
    forall k :: 0 <= k < |a| && !(g.offsetFat <= k < g.offsetFat + g.sizeFat) ==> a[k] == b[k]
  }

  /** A slot write touches nothing but the first FAT copy. */
  lemma WriteSlotInsideFat(img: seq<byte>, g: Geometry, c: int, v: u16)
    requires 0 <= c < Entries(g)
    ensures SameOutsideFat(img, WriteSlot(img, g, c, v), g)
  {
  }

  lemma SameOutsideFatTrans(a: seq<byte>, b: seq<byte>, c: seq<byte>, g: Geometry)
    requires SameOutsideFat(a, b, g) && SameOutsideFat(b, c, g)
    ensures SameOutsideFat(a, c, g)
  {
  }

  // ---------------------------------------------------------------------
  // Chains

  /** The in-use clusters met by following links from `c`, at most `fuel` of them. */
  function Chain(img: seq<byte>, g: Geometry, c: u16, fuel: nat): seq<u16>
    decreases fuel
  {
    if !InUse(c) || fuel == 0 then [] else [c] + Chain(img, g, NextCluster(img, g, c), fuel - 1)
  }

  /** Following links from `c` reaches a value that is not in use within `fuel` links. */
  predicate Ends(img: seq<byte>, g: Geometry, c: u16, fuel: nat)
    decreases fuel
  {
    !InUse(c) || (fuel > 0 && Ends(img, g, NextCluster(img, g, c), fuel - 1))
  }

  /** The `k`-th cluster reached from `c`. */
  function Walk(img: seq<byte>, g: Geometry, c: u16, k: nat): u16
    decreases k
  {
    if k == 0 then c else Walk(img, g, NextCluster(img, g, c), k - 1)
  }

  function ChainOf(img: seq<byte>, g: Geometry, c: u16): seq<u16> {
    Chain(img, g, c, Bound(g))
  }

  predicate Terminates(img: seq<byte>, g: Geometry, c: u16) {
    Ends(img, g, c, Bound(g))
  }

  /** The value get_cluster_count computes (utils.c:415-424). */
  function ClusterCount(img: seq<byte>, g: Geometry, c: u16): nat {
    |ChainOf(img, g, c)|
  }

  /** A chain's members are in use, and member `k` is the `k`-th cluster
      reached from the head. */
  lemma {:induction false} ChainMembers(img: seq<byte>, g: Geometry, c: u16, fuel: nat)
    ensures |Chain(img, g, c, fuel)| <= fuel
    ensures forall k :: 0 <= k < |Chain(img, g, c, fuel)| ==>
      InUse(Chain(img, g, c, fuel)[k]) && Chain(img, g, c, fuel)[k] == Walk(img, g, c, k)
    ensures Ends(img, g, c, fuel) ==> !InUse(Walk(img, g, c, |Chain(img, g, c, fuel)|))
    ensures !Ends(img, g, c, fuel) ==> |Chain(img, g, c, fuel)| == fuel
    decreases fuel
  {
    if InUse(c) && fuel > 0 {
      var n := NextCluster(img, g, c);
      ChainMembers(img, g, n, fuel - 1);
      var s := Chain(img, g, c, fuel);
      forall k | 0 <= k < |s|
        ensures InUse(s[k]) && s[k] == Walk(img, g, c, k)
      {
        if k > 0 { assert s[k] == Chain(img, g, n, fuel - 1)[k - 1]; }
      }
    }
  }

  /** More fuel does not change a chain that already ends. */
  lemma {:induction false} ChainFuel(img: seq<byte>, g: Geometry, c: u16, f: nat, f': nat)
    requires Ends(img, g, c, f) && f <= f'
    ensures Ends(img, g, c, f') && Chain(img, g, c, f') == Chain(img, g, c, f)
    decreases f
  {
    if InUse(c) {
      ChainFuel(img, g, NextCluster(img, g, c), f - 1, f' - 1);
    }
  }

  /** The tail of a chain is the chain of the cluster it starts at. */
  lemma {:induction false} ChainSuffix(img: seq<byte>, g: Geometry, c: u16, fuel: nat, k: nat)
    requires Ends(img, g, c, fuel) && k <= |Chain(img, g, c, fuel)| && k <= fuel
    ensures Ends(img, g, Walk(img, g, c, k), fuel - k)
    ensures Chain(img, g, c, fuel)[k..] == Chain(img, g, Walk(img, g, c, k), fuel - k)
    decreases k
  {
    if k > 0 {
      var n := NextCluster(img, g, c);
      assert Chain(img, g, c, fuel) == [c] + Chain(img, g, n, fuel - 1);
      ChainSuffix(img, g, n, fuel - 1, k - 1);
      assert Chain(img, g, c, fuel)[k..] == Chain(img, g, n, fuel - 1)[k - 1..];
    }
  }

  /** Two positions of an ending chain that reach the same cluster are the
      same position: from there on both see the same chain. */
  lemma SameWalkSamePosition(img: seq<byte>, g: Geometry, c: u16, fuel: nat, i: nat, j: nat)
    requires Ends(img, g, c, fuel) && i <= j <= |Chain(img, g, c, fuel)|
    ensures Walk(img, g, c, i) == Walk(img, g, c, j) ==> i == j
  {
    ChainMembers(img, g, c, fuel);
    ChainSuffix(img, g, c, fuel, i);
    ChainSuffix(img, g, c, fuel, j);
    if Walk(img, g, c, i) == Walk(img, g, c, j) {
      ChainFuel(img, g, Walk(img, g, c, j), fuel - j, fuel - i);
    }
  }

  /** A chain that ends never visits a cluster twice. */
  lemma ChainDistinct(img: seq<byte>, g: Geometry, c: u16, fuel: nat)
    requires Ends(img, g, c, fuel)
    ensures forall i, j :: 0 <= i < j < |Chain(img, g, c, fuel)| ==>
      Chain(img, g, c, fuel)[i] != Chain(img, g, c, fuel)[j]
  {
    var s := Chain(img, g, c, fuel);
    ChainMembers(img, g, c, fuel);
    forall i, j | 0 <= i < j < |s|
      ensures s[i] != s[j]
    {
      SameWalkSamePosition(img, g, c, fuel, i, j);
    }
  }

  /** Members of an ending chain other than the last have their slot inside
      the first FAT copy; their stored link is the next member. */
  lemma ChainLinks(img: seq<byte>, g: Geometry, c: u16, fuel: nat, k: nat)
    requires k + 1 < |Chain(img, g, c, fuel)|
    ensures Addressable(g, Chain(img, g, c, fuel)[k])
    ensures NextCluster(img, g, Chain(img, g, c, fuel)[k]) == Chain(img, g, c, fuel)[k + 1]
  {
    ChainMembers(img, g, c, fuel);
    var s := Chain(img, g, c, fuel);
    assert s[k + 1] == Walk(img, g, c, k + 1);
    WalkStep(img, g, c, k);
  }

  lemma {:induction false} WalkStep(img: seq<byte>, g: Geometry, c: u16, k: nat)
    ensures Walk(img, g, c, k + 1) == NextCluster(img, g, Walk(img, g, c, k))
    decreases k
  {
    if k > 0 { WalkStep(img, g, NextCluster(img, g, c), k - 1); }
  }

  /** A sequence of distinct integers inside `[lo, hi)` has at most `hi - lo` elements. */
  lemma {:induction false} DistinctInRange(s: seq<u16>, lo: int, hi: int)
    requires forall i, j :: 0 <= i < j < |s| ==> s[i] != s[j]
    requires forall i :: 0 <= i < |s| ==> lo <= s[i] < hi
    ensures |s| <= if hi > lo then hi - lo else 0
    decreases |s|
  {
    if |s| > 0 {
      var x := s[|s| - 1];
      var t := s[..|s| - 1];
      // move the largest range element into x's place, so t fits in [lo, hi - 1)
      var t' := seq(|t|, i requires 0 <= i < |t| => if t[i] == hi - 1 then x else t[i]);
      assert forall i :: 0 <= i < |t'| ==> t'[i] != hi - 1 && lo <= t'[i] < hi;
      forall i, j | 0 <= i < j < |t'|
        ensures t'[i] != t'[j]
      {
        assert t[i] != t[j];
      }
      DistinctInRange(t', lo, hi - 1);
    }
  }

  /** A chain that ends within any number of links ends within `Bound`: its
      members are distinct and all but the last lie in `[MIN, Entries)`. */
  lemma EndsWithinBound(img: seq<byte>, g: Geometry, c: u16, fuel: nat)
    requires Ends(img, g, c, fuel)
    ensures Terminates(img, g, c) && ChainOf(img, g, c) == Chain(img, g, c, fuel)
  {
    var s := Chain(img, g, c, fuel);
    ChainDistinct(img, g, c, fuel);
    if |s| > 1 {
      var front := s[..|s| - 1];
      forall i | 0 <= i < |front|
        ensures CLUSTER_MIN <= front[i] < Entries(g)
      {
        ChainLinks(img, g, c, fuel, i);
      }
      DistinctInRange(front, CLUSTER_MIN as int, Entries(g));
    }
    if fuel <= Bound(g) {
      ChainFuel(img, g, c, fuel, Bound(g));
    } else {
      ChainMembers(img, g, c, fuel);
      ChainPrefixEnds(img, g, c, fuel, Bound(g));
    }
  }

  /** A chain that ends within `fuel` and has at most `f` members ends within `f`. */
  lemma {:induction false} ChainPrefixEnds(img: seq<byte>, g: Geometry, c: u16, fuel: nat, f: nat)
    requires Ends(img, g, c, fuel) && |Chain(img, g, c, fuel)| <= f <= fuel
    ensures Ends(img, g, c, f) && Chain(img, g, c, f) == Chain(img, g, c, fuel)
    decreases f
  {
    if InUse(c) {
      ChainPrefixEnds(img, g, NextCluster(img, g, c), fuel - 1, f - 1);
    }
  }

  // ---------------------------------------------------------------------
  // release_cluster (utils.c:389-399)

  /** The image after release_cluster(c). The loop clears the slot of `c` and
      then re-reads that same slot, which now holds FREE, so it stops after
      the head: only the first cluster of the chain is freed. A failed write
      aborts the process in the source; here it leaves the image as it was. */
  function Release(img: seq<byte>, g: Geometry, c: u16): seq<byte> {
    if InUse(c) then WriteSlot(img, g, c, CLUSTER_FREE) else img
  }

  /** After release_cluster(c) the head's slot reads FREE and no other slot changes. */
  lemma ReleaseFreesOnlyHead(img: seq<byte>, g: Geometry, c: u16, d: u16)
    ensures |Release(img, g, c)| == |img|
    ensures d != c ==> NextCluster(Release(img, g, c), g, d) == NextCluster(img, g, d)
    ensures InUse(c) && Addressable(g, c) && SlotFits(img, g, c) ==>
      NextCluster(Release(img, g, c), g, c) == CLUSTER_FREE
    ensures !InUse(c) ==> Release(img, g, c) == img
  {
    if InUse(c) { NextAfterWriteSlot(img, g, c, CLUSTER_FREE, d); }
  }

  /** The loop of release_cluster stops after its first round: the slot it
      re-reads is FREE (or END when the cluster has no slot). */
  lemma ReleaseStopsAfterHead(img: seq<byte>, g: Geometry, c: u16)
    requires InUse(c) && SlotFits(img, g, c)
    ensures !InUse(NextCluster(WriteSlot(img, g, c, CLUSTER_FREE), g, c))
  {
    NextAfterWriteSlot(img, g, c, CLUSTER_FREE, c);
  }

  /** The defect in full: releasing a chain of two or more clusters leaves
      every cluster after the head allocated, still linked as before. */
  lemma ReleaseLeaksTail(img: seq<byte>, g: Geometry, c: u16)
    requires Terminates(img, g, c) && |ChainOf(img, g, c)| >= 2
    ensures forall k :: 1 <= k < |ChainOf(img, g, c)| ==>
      NextCluster(Release(img, g, c), g, ChainOf(img, g, c)[k]) ==
      NextCluster(img, g, ChainOf(img, g, c)[k])
  {
    var s := ChainOf(img, g, c);
    ChainDistinct(img, g, c, Bound(g));
    ChainMembers(img, g, c, Bound(g));
    assert s[0] == c;
    forall k | 1 <= k < |s|
      ensures NextCluster(Release(img, g, c), g, s[k]) == NextCluster(img, g, s[k])
    {
      ReleaseFreesOnlyHead(img, g, c, s[k]);
    }
  }

  // ---------------------------------------------------------------------
  // get_cluster_count (utils.c:415-424)

  /** The `uint32_t` count never wraps: the bound is below 2^32 because
      `size_fat` is a product of two 16-bit BPB fields. */
  lemma ClusterCountIsChainLength(img: seq<byte>, g: Geometry, c: u16)
    ensures ClusterCount(img, g, c) <= Bound(g)
    ensures Terminates(img, g, c) ==> !InUse(Walk(img, g, c, ClusterCount(img, g, c)))
    ensures forall k :: 0 <= k < ClusterCount(img, g, c) ==> InUse(Walk(img, g, c, k))
    ensures c == CLUSTER_END || c == CLUSTER_FREE ==> ClusterCount(img, g, c) == 0
  {
    ChainMembers(img, g, c, Bound(g));
  }

  // ---------------------------------------------------------------------
  // get_free_cluster_num (utils.c:487-517)

  /** The `size_t` loop index `i` as the `uint16_t` next_cluster and
      get_cluster_offset receive it. */
  function Trunc16(i: int): u16 { i % 0x1_0000 }

  /** Slot `i` passes the allocator's test: it reads FREE and names a data cluster. */
  predicate Claimable(img: seq<byte>, g: Geometry, i: int) {
    NextCluster(img, g, Trunc16(i)) == CLUSTER_FREE && ClusterOffset(g, Trunc16(i)) >= 0
  }

  /** The inner `for` loop from index `i`: the lowest claimable index, or
      `Entries` when there is none. */
  function FirstFree(img: seq<byte>, g: Geometry, i: nat): (r: nat)
    requires i <= Entries(g)
    ensures i <= r <= Entries(g)
    decreases Entries(g) - i
  {
    if i == Entries(g) || Claimable(img, g, i) then i else FirstFree(img, g, i + 1)
  }

  /** The scan stops at the first claimable slot at or after `i`. */
  lemma {:induction false} FirstFreeIsFirst(img: seq<byte>, g: Geometry, i: nat)
    requires i <= Entries(g)
    ensures FirstFree(img, g, i) < Entries(g) ==> Claimable(img, g, FirstFree(img, g, i))
    ensures forall j :: i <= j < FirstFree(img, g, i) ==> !Claimable(img, g, j)
    decreases Entries(g) - i
  {
    if i < Entries(g) && !Claimable(img, g, i) {
      FirstFreeIsFirst(img, g, i + 1);
    }
  }

  /** An image together with a cluster number returned beside it. */
  datatype Alloc = Alloc(img: seq<byte>, first: u16)

  /** The remaining `count` rounds of `while (count--)`, `first` being the
      head claimed so far. Each round stores the previous head in the slot it
      claims; when no slot is claimable the rounds give up, release `first`
      and return END; a failed slot write returns `-EIO` as `uint16_t`. */
  function AllocRounds(img: seq<byte>, g: Geometry, first: u16, count: nat): Alloc
    decreases count
  {
    if count == 0 then Alloc(img, first)
    else
      var i := FirstFree(img, g, 0);
      if i == Entries(g) then Alloc(Release(img, g, first), CLUSTER_END)
      else if !SlotFits(img, g, i) then Alloc(img, EIO_U16)
      else AllocRounds(WriteSlot(img, g, i, first), g, Trunc16(i), count - 1)
  }

  /** get_free_cluster_num(count). */
  function FreeClusterNum(img: seq<byte>, g: Geometry, count: u32): Alloc {
    if count == 0 then Alloc(img, CLUSTER_END) else AllocRounds(img, g, CLUSTER_END, count)
  }

  // ---------------------------------------------------------------------
  // file_new_cluster (utils.c:446-485)

  datatype Fill = Fill(img: seq<byte>, ok: bool)

  /** The zero-fill loop over the new chain from `cur`. */
  function ZeroFill(img: seq<byte>, g: Geometry, cur: u16, fuel: nat): Fill
    decreases fuel
  {
    if !InUse(cur) || fuel == 0 then Fill(img, true)
    else
      var off := ClusterOffset(g, cur);
      if !Store.Fits(img, off, g.sizeCluster) then Fill(img, false)
      else
        var img' := Store.Write(img, off, Store.Zeros(g.sizeCluster));
        ZeroFill(img', g, NextCluster(img', g, cur), fuel - 1)
  }

  /** The loop that walks from `cur` to the last in-use cluster of a chain. */
  function Tail(img: seq<byte>, g: Geometry, cur: u16, fuel: nat): u16
    decreases fuel
  {
    if fuel == 0 || !InUse(NextCluster(img, g, cur)) then cur
    else Tail(img, g, NextCluster(img, g, cur), fuel - 1)
  }

  /** The image, the caller's FCB and the returned cluster number. */
  datatype Grow = Grow(img: seq<byte>, fcb: Fcb, r: u16)

  /** file_new_cluster(file, count): allocate `count` clusters, zero them and
      link them after the file's last cluster, or make them the file's chain
      when it has none. */
  function FileNewCluster(img: seq<byte>, g: Geometry, fcb: Fcb, count: u32): (r: Grow)
    // only the first cluster of the FCB may change, and it does not when
    // no space was found
    ensures r.fcb == fcb.(firstCluster := r.fcb.firstCluster)
    ensures r.r == CLUSTER_END ==> r.fcb == fcb
  {
    var a := FreeClusterNum(img, g, count);
    if a.first == CLUSTER_END then Grow(a.img, fcb, CLUSTER_END)
    else
      var z := ZeroFill(a.img, g, a.first, Bound(g));
      if !z.ok then Grow(Release(z.img, g, a.first), fcb, EIO_U16)
      else if InUse(fcb.firstCluster) then
        var t := Tail(z.img, g, fcb.firstCluster, Bound(g));
        if !SlotFits(z.img, g, t) then Grow(Release(z.img, g, a.first), fcb, EIO_U16)
        else Grow(WriteSlot(z.img, g, t, a.first), fcb, a.first)
      else Grow(z.img, fcb.(firstCluster := a.first), a.first)
  }

  // ---------------------------------------------------------------------
  // adjust_cluster_count (utils.c:563-594)

  /** The image, the caller's FCB and the returned status. */
  datatype Resize = Resize(img: seq<byte>, fcb: Fcb, ret: int)

  /** adjust_cluster_count(fcb, n). Shrinking walks `n` links (`pre` is the
      `n`-th cluster, `cur` the one after it), writes FREE into the slot of
      `pre` (or clears `first_cluster` when `n == 0`) and releases `cur`;
      growing asks file_new_cluster for the difference. */
  function Adjust(img: seq<byte>, g: Geometry, fcb: Fcb, n: u32): (r: Resize)
    // only the first cluster of the FCB may change; the status is 0,
    // -EIO or -ENOSPC
    ensures r.fcb == fcb.(firstCluster := r.fcb.firstCluster)
    ensures r.ret == 0 || r.ret == -EIO || r.ret == -ENOSPC
  {
    var have := ClusterCount(img, g, fcb.firstCluster);
    if have == n then Resize(img, fcb, 0)
    else if have > n then
      var cur := Walk(img, g, fcb.firstCluster, n);
      var pre := if n == 0 then CLUSTER_END else Walk(img, g, fcb.firstCluster, n - 1);
      if pre == CLUSTER_END then
        Resize(Release(img, g, cur), fcb.(firstCluster := CLUSTER_END), 0)
      else if !SlotFits(img, g, pre) then Resize(img, fcb, -EIO)
      else Resize(Release(WriteSlot(img, g, pre, CLUSTER_FREE), g, cur), fcb, 0)
    else
      var r := FileNewCluster(img, g, fcb, n - have);
      Resize(r.img, r.fcb, if r.r == CLUSTER_END then -ENOSPC else 0)
  }

  /** Following `n` links from `c` meets only in-use clusters and then one
      that is not in use: the chain has `n` members. */
  lemma {:induction false} ChainLengthFromWalk(img: seq<byte>, g: Geometry, c: u16, fuel: nat, n: nat)
    requires n <= fuel
    requires forall k :: 0 <= k < n ==> InUse(Walk(img, g, c, k))
    requires !InUse(Walk(img, g, c, n))
    ensures |Chain(img, g, c, fuel)| == n
    decreases n
  {
    if n > 0 {
      var nx := NextCluster(img, g, c);
      assert InUse(Walk(img, g, c, 0));
      forall k | 0 <= k < n - 1
        ensures InUse(Walk(img, g, nx, k))
      {
        assert Walk(img, g, c, k + 1) == Walk(img, g, nx, k);
      }
      assert Walk(img, g, c, n) == Walk(img, g, nx, n - 1);
      ChainLengthFromWalk(img, g, nx, fuel - 1, n - 1);
    }
  }

  /** Two images whose links agree on the first `n` clusters reached from
      `c` reach the same clusters in up to `n` links. */
  lemma {:induction false} WalkKept(img: seq<byte>, img': seq<byte>, g: Geometry, c: u16, n: nat)
    requires forall k :: 0 <= k < n ==>
      NextCluster(img', g, Walk(img, g, c, k)) == NextCluster(img, g, Walk(img, g, c, k))
    ensures forall k :: 0 <= k <= n ==> Walk(img', g, c, k) == Walk(img, g, c, k)
    decreases n
  {
    if n > 0 {
      WalkKept(img, img', g, c, n - 1);
      WalkStep(img', g, c, n - 1);
      WalkStep(img, g, c, n - 1);
    }
  }

  /** A shrinking adjust_cluster_count on a chain that ends leaves
      get_cluster_count equal to the count asked for: the slot of the
      `n`-th cluster reads FREE, or the first cluster is END when `n` is 0.
      It fails, with -EIO, only when that slot cannot be written. */
  lemma AdjustShrinks(img: seq<byte>, g: Geometry, fcb: Fcb, n: u32)
    requires Terminates(img, g, fcb.firstCluster)
    requires n < ClusterCount(img, g, fcb.firstCluster)
    ensures var r := Adjust(img, g, fcb, n);
      var pre := Walk(img, g, fcb.firstCluster, if n > 0 then n - 1 else 0);
      (r.ret == 0 || r.ret == -EIO) &&
      (r.ret == -EIO <==> n > 0 && !SlotFits(img, g, pre)) &&
      (n == 0 ==> r.fcb.firstCluster == CLUSTER_END) &&
      (n > 0 && r.ret == 0 ==> r.fcb == fcb && NextCluster(r.img, g, pre) == CLUSTER_FREE) &&
      (r.ret == 0 ==> ClusterCount(r.img, g, r.fcb.firstCluster) == n)
  {
    var c0 := fcb.firstCluster;
    ChainMembers(img, g, c0, Bound(g));
    if n > 0 {
      var pre := Walk(img, g, c0, n - 1);
      var cur := Walk(img, g, c0, n);
      assert pre == ChainOf(img, g, c0)[n - 1];
      if SlotFits(img, g, pre) {
        assert Adjust(img, g, fcb, n).img == Release(WriteSlot(img, g, pre, CLUSTER_FREE), g, cur);
        CutLength(img, g, c0, n);
      }
    }
  }

  /** Cutting a chain after its `n`-th member, as adjust_cluster_count does
      when it shrinks: the `n`-th member's slot reads FREE and the chain has
      `n` members. */
  lemma CutLength(img: seq<byte>, g: Geometry, c0: u16, n: nat)
    requires Terminates(img, g, c0)
    requires 0 < n < ClusterCount(img, g, c0)
    requires SlotFits(img, g, Walk(img, g, c0, n - 1))
    ensures var img2 := Release(WriteSlot(img, g, Walk(img, g, c0, n - 1), CLUSTER_FREE), g, Walk(img, g, c0, n));
      NextCluster(img2, g, Walk(img, g, c0, n - 1)) == CLUSTER_FREE &&
      ClusterCount(img2, g, c0) == n
  {
    var C := ChainOf(img, g, c0);
    var pre := Walk(img, g, c0, n - 1);
    var cur := Walk(img, g, c0, n);
    var img2 := Release(WriteSlot(img, g, pre, CLUSTER_FREE), g, cur);
    CutKeepsPrefix(img, g, c0, n);
    WalkStep(img2, g, c0, n - 1);
    assert Walk(img2, g, c0, n) == CLUSTER_FREE;
    ChainMembers(img, g, c0, Bound(g));
    forall k | 0 <= k < n
      ensures InUse(Walk(img2, g, c0, k))
    {
      assert Walk(img, g, c0, k) == C[k];
    }
    ChainLengthFromWalk(img2, g, c0, Bound(g), n);
  }

  /** The cut leaves the first `n` members of the chain where they were
      and frees the slot of the last of them. */
  lemma CutKeepsPrefix(img: seq<byte>, g: Geometry, c0: u16, n: nat)
    requires Terminates(img, g, c0)
    requires 0 < n < ClusterCount(img, g, c0)
    requires SlotFits(img, g, Walk(img, g, c0, n - 1))
    ensures var img2 := Release(WriteSlot(img, g, Walk(img, g, c0, n - 1), CLUSTER_FREE), g, Walk(img, g, c0, n));
      NextCluster(img2, g, Walk(img, g, c0, n - 1)) == CLUSTER_FREE &&
      forall k :: 0 <= k <= n - 1 ==> Walk(img2, g, c0, k) == Walk(img, g, c0, k)
  {
    var C := ChainOf(img, g, c0);
    ChainMembers(img, g, c0, Bound(g));
    var pre := Walk(img, g, c0, n - 1);
    var cur := Walk(img, g, c0, n);
    assert pre == C[n - 1] && cur == C[n];
    ChainDistinct(img, g, c0, Bound(g));
    ChainLinks(img, g, c0, Bound(g), n - 1);
    var img1 := WriteSlot(img, g, pre, CLUSTER_FREE);
    var img2 := Release(img1, g, cur);
    forall k | 0 <= k < n - 1
      ensures NextCluster(img2, g, Walk(img, g, c0, k)) == NextCluster(img, g, Walk(img, g, c0, k))
    {
      assert Walk(img, g, c0, k) == C[k];
      ReleaseFreesOnlyHead(img1, g, cur, C[k]);
      NextAfterWriteSlot(img, g, pre, CLUSTER_FREE, C[k]);
    }
    WalkKept(img, img2, g, c0, n - 1);
    ReleaseFreesOnlyHead(img1, g, cur, pre);
    NextAfterWriteSlot(img, g, pre, CLUSTER_FREE, pre);
  }
}
