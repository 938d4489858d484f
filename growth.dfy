/** What file_new_cluster (utils.c:446-485) does to the image, on top of
    get_free_cluster_num: the clusters it allocates are zero-filled, then
    linked after the file's last cluster or made the file's chain; and what
    the growing branch of adjust_cluster_count (utils.c:587-591) makes of
    that. */
module Growth {
  import opened Layout
  import opened Geometry
  import Store
  import opened Fat
  import opened Alloc

  /** Cluster `c`'s bytes lie inside the image and read as zeros. */
  predicate Zeroed(img: seq<byte>, g: Geometry, c: u16) {
    Store.Fits(img, ClusterOffset(g, c), g.sizeCluster) &&
    Store.Read(img, ClusterOffset(g, c), g.sizeCluster) == Store.Zeros(g.sizeCluster)
  }

  /** The chain from `c` is one a file can own: it ends, each member has its
      slot in the first FAT copy, and none of them reads as free. */
  predicate Owned(img: seq<byte>, g: Geometry, c: u16) {
    Terminates(img, g, c) &&
    forall x :: x in ChainOf(img, g, c) ==> Addressable(g, x) && !Claimable(img, g, x)
  }

  /** The image holds the whole first FAT copy and every data cluster. */
  predicate Covers(img: seq<byte>, g: Geometry) {
    g.offsetFat + g.sizeFat <= |img| &&
    g.offsetData + g.sizeCluster * (Entries(g) - 2) <= |img|
  }

  // ---------------------------------------------------------------------
  // Where clusters and slots lie

  /** A data cluster lies after the first FAT copy. */
  lemma DataAfterFat(g: Geometry, c: u16)
    requires Contiguous(g) && Addressable(g, c)
    ensures ClusterOffset(g, c) >= g.offsetFat + g.sizeFat
  {
    assert g.sizeCluster * (c - 2) >= 0;
  }

  /** The slot of a cluster below Entries lies inside the first FAT copy. */
  lemma SlotInFat(g: Geometry, c: u16)
    requires c < Entries(g)
    ensures g.offsetFat <= SlotOffset(g, c) && SlotOffset(g, c) + 2 <= g.offsetFat + g.sizeFat
  {
  }

  /** On an image that covers the first FAT copy every slot below Entries fits. */
  lemma SlotFitsWhenCovers(img: seq<byte>, img': seq<byte>, g: Geometry, c: u16)
    requires Covers(img, g) && |img'| == |img| && c < Entries(g)
    ensures SlotFits(img', g, c)
  {
    SlotInFat(g, c);
  }

  /** Two different data clusters do not overlap. */
  lemma ClustersApart(g: Geometry, c: u16, d: u16)
    requires Addressable(g, c) && Addressable(g, d) && c != d
    ensures ClusterOffset(g, c) + g.sizeCluster <= ClusterOffset(g, d) ||
            ClusterOffset(g, d) + g.sizeCluster <= ClusterOffset(g, c)
  {
    if c < d {
      MulGap(g.sizeCluster, c - 2, d - c);
    } else {
      MulGap(g.sizeCluster, d - 2, c - d);
    }
  }

  lemma MulGap(m: nat, a: nat, b: nat)
    requires b >= 1
    ensures m * a + m <= m * (a + b)
  {
    assert m * (a + b) == m * a + m * b;
    assert m * b == m * (b - 1) + m;
  }

  /** On an image that covers the data region every data cluster fits. */
  lemma ClusterFits(img: seq<byte>, g: Geometry, c: u16)
    requires Covers(img, g) && Addressable(g, c)
    ensures Store.Fits(img, ClusterOffset(g, c), g.sizeCluster)
  {
    MulGap(g.sizeCluster, c - 2, Entries(g) - c);
  }

  // ---------------------------------------------------------------------
  // Chains and links under changes

  /** A chain whose members keep their links keeps its members and whether it ends. */
  lemma {:induction false} ChainKept(img: seq<byte>, img': seq<byte>, g: Geometry, c: u16, f: nat)
    requires forall x :: x in Chain(img, g, c, f) ==> NextCluster(img', g, x) == NextCluster(img, g, x)
    ensures Chain(img', g, c, f) == Chain(img, g, c, f)
    ensures Ends(img', g, c, f) == Ends(img, g, c, f)
    decreases f
  {
    if InUse(c) && f > 0 {
      var n := NextCluster(img, g, c);
      assert Chain(img, g, c, f) == [c] + Chain(img, g, n, f - 1);
      ChainKept(img, img', g, n, f - 1);
    }
  }

  /** The walk of file_new_cluster to the last cluster ends on the chain's last member. */
  lemma {:induction false} TailIsLast(img: seq<byte>, g: Geometry, c: u16, f: nat)
    requires Ends(img, g, c, f) && InUse(c)
    ensures |Chain(img, g, c, f)| > 0
    ensures Tail(img, g, c, f) == Chain(img, g, c, f)[|Chain(img, g, c, f)| - 1]
    decreases f
  {
    var n := NextCluster(img, g, c);
    if InUse(n) {
      TailIsLast(img, g, n, f - 1);
    }
  }

  /** A linked list stays linked when its members keep their links. */
  lemma LinkedKept(img: seq<byte>, img': seq<byte>, g: Geometry, L: seq<u16>, first: u16)
    requires Linked(img, g, L, first) && |img'| == |img|
    requires forall k :: 0 <= k < |L| ==> NextCluster(img', g, L[k]) == NextCluster(img, g, L[k])
    ensures Linked(img', g, L, first)
  {
  }

  // ---------------------------------------------------------------------
  // The zero-fill loop of file_new_cluster (utils.c:461-468)

  /** `b` reads every link as `a` does. */
  ghost predicate SameLinks(a: seq<byte>, b: seq<byte>, g: Geometry) {
    |b| == |a| && forall d: u16 :: NextCluster(b, g, d) == NextCluster(a, g, d)
  }

  /** Every data cluster outside `L` that lies inside `a` reads the same in `b`. */
  ghost predicate KeepsData(a: seq<byte>, b: seq<byte>, g: Geometry, L: seq<u16>) {
    |b| == |a| &&
    forall c: u16 {:trigger Store.Read(b, ClusterOffset(g, c), g.sizeCluster)} ::
      c !in L && Addressable(g, c) && Store.Fits(a, ClusterOffset(g, c), g.sizeCluster) ==>
      Store.Read(b, ClusterOffset(g, c), g.sizeCluster) == Store.Read(a, ClusterOffset(g, c), g.sizeCluster)
  }

  ghost predicate AllFit(img: seq<byte>, g: Geometry, L: seq<u16>) {
    forall k {:trigger Store.Fits(img, ClusterOffset(g, L[k]), g.sizeCluster)} ::
      0 <= k < |L| ==> Store.Fits(img, ClusterOffset(g, L[k]), g.sizeCluster)
  }

  ghost predicate AllZeroed(img: seq<byte>, g: Geometry, L: seq<u16>) {
    forall k {:trigger Zeroed(img, g, L[k])} :: 0 <= k < |L| ==> Zeroed(img, g, L[k])
  }

  lemma AllSplit(img: seq<byte>, img': seq<byte>, g: Geometry, L: seq<u16>)
    requires |L| > 0 && |img'| == |img|
    ensures AllFit(img, g, L) <==>
      Store.Fits(img, ClusterOffset(g, L[0]), g.sizeCluster) && AllFit(img', g, L[1..])
    ensures Zeroed(img', g, L[0]) && AllZeroed(img', g, L[1..]) ==> AllZeroed(img', g, L)
  {
    var sc := g.sizeCluster;
    if AllFit(img, g, L) {
      forall k | 0 <= k < |L[1..]|
        ensures Store.Fits(img', ClusterOffset(g, L[1..][k]), sc)
      {
        assert L[1..][k] == L[k + 1];
        assert Store.Fits(img, ClusterOffset(g, L[k + 1]), sc);
      }
    }
    if Store.Fits(img, ClusterOffset(g, L[0]), sc) && AllFit(img', g, L[1..]) {
      forall k | 0 < k < |L|
        ensures Store.Fits(img, ClusterOffset(g, L[k]), sc)
      {
        assert L[k] == L[1..][k - 1];
        assert Store.Fits(img', ClusterOffset(g, L[1..][k - 1]), sc);
      }
    }
    if Zeroed(img', g, L[0]) && AllZeroed(img', g, L[1..]) {
      forall k | 0 < k < |L|
        ensures Zeroed(img', g, L[k])
      {
        assert L[k] == L[1..][k - 1];
        assert Zeroed(img', g, L[1..][k - 1]);
      }
    }
  }

  /** Writing zeros over one data cluster: no link changes, the cluster reads
      as zeros, and every other data cluster keeps its bytes. */
  lemma ZeroOne(img: seq<byte>, g: Geometry, c: u16)
    requires Usable(g) && Contiguous(g) && Addressable(g, c)
    requires Store.Fits(img, ClusterOffset(g, c), g.sizeCluster)
    ensures var img1 := Store.Write(img, ClusterOffset(g, c), Store.Zeros(g.sizeCluster));
      SameLinks(img, img1, g) && Zeroed(img1, g, c) && KeepsData(img, img1, g, [c])
  {
    var sc := g.sizeCluster;
    var off := ClusterOffset(g, c);
    var img1 := Store.Write(img, off, Store.Zeros(sc));
    DataAfterFat(g, c);
    forall d: u16
      ensures NextCluster(img1, g, d) == NextCluster(img, g, d)
    {
      NextAfterWriteOutsideFat(img, g, off, Store.Zeros(sc), d);
    }
    Store.ReadAfterWrite(img, off, Store.Zeros(sc));
    forall d: u16 | d !in [c] && Addressable(g, d) && Store.Fits(img, ClusterOffset(g, d), sc)
      ensures Store.Read(img1, ClusterOffset(g, d), sc) == Store.Read(img, ClusterOffset(g, d), sc)
    {
      ClustersApart(g, c, d);
      Store.ReadAfterWriteElsewhere(img, off, Store.Zeros(sc), ClusterOffset(g, d), sc);
    }
  }

  /** What the zero-fill loop over the linked clusters `L` leaves: no link
      changes, the loop succeeds exactly when every cluster of `L` lies inside
      the image, and then each of them reads as zeros; the other data
      clusters keep their bytes. */
  ghost predicate Filled(img: seq<byte>, g: Geometry, L: seq<u16>, z: Fill) {
    SameLinks(img, z.img, g) &&
    (z.ok <==> AllFit(img, g, L)) &&
    (z.ok ==> AllZeroed(z.img, g, L)) &&
    KeepsData(img, z.img, g, L)
  }

  /** One round of the loop: zeroing the head, then filling the rest. */
  lemma FilledStep(img: seq<byte>, img1: seq<byte>, g: Geometry, L: seq<u16>, z: Fill)
    requires |L| > 0 && Addressable(g, L[0]) && L[0] !in L[1..]
    requires Store.Fits(img, ClusterOffset(g, L[0]), g.sizeCluster)
    requires SameLinks(img, img1, g) && Zeroed(img1, g, L[0]) && KeepsData(img, img1, g, [L[0]])
    requires Filled(img1, g, L[1..], z)
    ensures Filled(img, g, L, z)
  {
    var sc := g.sizeCluster;
    var rest := L[1..];
    AllSplit(img, img1, g, L);
    if z.ok {
      assert Zeroed(z.img, g, L[0]);
      AllSplit(img, z.img, g, L);
    }
    forall c: u16 | c !in L && Addressable(g, c) && Store.Fits(img, ClusterOffset(g, c), sc)
      ensures Store.Read(z.img, ClusterOffset(g, c), sc) == Store.Read(img, ClusterOffset(g, c), sc)
    {
      assert c !in rest && c !in [L[0]];
      assert Store.Fits(img1, ClusterOffset(g, c), sc);
    }
  }

  /** After zeroing the head of a linked list, the rest stays linked from the head's link. */
  lemma ZeroHeadLinked(img: seq<byte>, g: Geometry, L: seq<u16>, first: u16)
    requires Usable(g) && Contiguous(g) && Linked(img, g, L, first) && |L| > 0
    requires Store.Fits(img, ClusterOffset(g, first), g.sizeCluster)
    ensures var img1 := Store.Write(img, ClusterOffset(g, first), Store.Zeros(g.sizeCluster));
      Linked(img1, g, L[1..], NextCluster(img1, g, first))
  {
    var img1 := Store.Write(img, ClusterOffset(g, first), Store.Zeros(g.sizeCluster));
    ZeroOne(img, g, first);
    LinkedTail(img, g, L, first);
    LinkedKept(img, img1, g, L[1..], NextCluster(img, g, first));
  }

  /** Zeroing the head of `L` and then filling the rest fills the whole of `L`. */
  lemma ZeroRound(img: seq<byte>, g: Geometry, L: seq<u16>, z: Fill)
    requires Usable(g) && Contiguous(g)
    requires |L| > 0 && Addressable(g, L[0]) && L[0] !in L[1..]
    requires Store.Fits(img, ClusterOffset(g, L[0]), g.sizeCluster)
    requires Filled(Store.Write(img, ClusterOffset(g, L[0]), Store.Zeros(g.sizeCluster)), g, L[1..], z)
    ensures Filled(img, g, L, z)
  {
    ZeroOne(img, g, L[0]);
    FilledStep(img, Store.Write(img, ClusterOffset(g, L[0]), Store.Zeros(g.sizeCluster)), g, L, z);
  }

  /** The zero-fill loop of file_new_cluster over the linked, distinct
      clusters `L`. */
  lemma {:induction false} ZeroFillEffect(img: seq<byte>, g: Geometry, L: seq<u16>, first: u16, fuel: nat)
    requires Usable(g) && Contiguous(g)
    requires Linked(img, g, L, first) && |L| <= fuel
    requires forall i, j :: 0 <= i < j < |L| ==> L[i] != L[j]
    ensures Filled(img, g, L, ZeroFill(img, g, first, fuel))
    decreases |L|
  {
    if |L| > 0 {
      var sc := g.sizeCluster;
      var off := ClusterOffset(g, first);
      assert first == L[0] && Addressable(g, L[0]);
      if Store.Fits(img, off, sc) {
        var img1 := Store.Write(img, off, Store.Zeros(sc));
        var next := NextCluster(img1, g, first);
        ZeroHeadLinked(img, g, L, first);
        ZeroFillEffect(img1, g, L[1..], next, fuel - 1);
        assert first !in L[1..];
        ZeroRound(img, g, L, ZeroFill(img1, g, next, fuel - 1));
      } else {
        AllSplit(img, img, g, L);
      }
    }
  }

  // ---------------------------------------------------------------------
  // file_new_cluster (utils.c:446-485)

  /** A chain whose members keep their links is the same chain, and still ends. */
  lemma ChainOfKept(img: seq<byte>, img': seq<byte>, g: Geometry, c: u16)
    requires Terminates(img, g, c)
    requires forall x :: x in ChainOf(img, g, c) ==> NextCluster(img', g, x) == NextCluster(img, g, x)
    ensures Terminates(img', g, c) && ChainOf(img', g, c) == ChainOf(img, g, c)
  {
    ChainKept(img, img', g, c, Bound(g));
  }

  /** A linked list of clusters is the chain from its head, and it ends. */
  lemma LinkedChainOf(img: seq<byte>, g: Geometry, L: seq<u16>, first: u16)
    requires Linked(img, g, L, first)
    ensures Terminates(img, g, first) && ChainOf(img, g, first) == L
  {
    LinkedIsChain(img, g, L, first);
    EndsWithinBound(img, g, first, |L|);
  }

  /** What get_free_cluster_num and the zero-fill loop leave, with `count`
      slots claimable: a chain `N` of `count` claimable clusters from the
      returned head, its links intact after the loop, no other link changed;
      each member reads as zeros when the loop succeeds, and it does succeed
      when the image covers the data region. */
  lemma NewChainZeroed(img: seq<byte>, g: Geometry, count: u32)
    requires Usable(g) && Contiguous(g) && NoTruncation(g)
    requires 0 < count <= |ClaimableSet(img, g)|
    ensures var a := FreeClusterNum(img, g, count);
      var z := ZeroFill(a.img, g, a.first, Bound(g));
      var N := ChainOf(a.img, g, a.first);
      InUse(a.first) && |N| == count && |z.img| == |img| &&
      Linked(z.img, g, N, a.first) &&
      (forall k :: 0 <= k < |N| ==> N[k] in ClaimableSet(img, g)) &&
      (forall d: u16 :: d !in N ==> NextCluster(z.img, g, d) == NextCluster(img, g, d)) &&
      (z.ok ==> AllZeroed(z.img, g, N)) &&
      (Covers(img, g) ==> z.ok)
  {
    var a := FreeClusterNum(img, g, count);
    FreeClusterNumSucceeds(img, g, count);
    var N := ChainOf(a.img, g, a.first);
    ChainMembers(a.img, g, a.first, Bound(g));
    ChainDistinct(a.img, g, a.first, Bound(g));
    ZeroFillEffect(a.img, g, N, a.first, Bound(g));
    var z := ZeroFill(a.img, g, a.first, Bound(g));
    LinkedKept(a.img, z.img, g, N, a.first);
    if Covers(img, g) {
      forall k | 0 <= k < |N|
        ensures Store.Fits(a.img, ClusterOffset(g, N[k]), g.sizeCluster)
      {
        ClusterFits(a.img, g, N[k]);
      }
    }
  }

  /** Clusters that are not claimable are not among the claimable ones. */
  lemma OwnedApart(img: seq<byte>, g: Geometry, O: seq<u16>, N: seq<u16>)
    requires forall x :: x in O ==> !Claimable(img, g, x)
    requires forall k :: 0 <= k < |N| ==> N[k] in ClaimableSet(img, g)
    ensures forall x :: x in O ==> x !in N
  {
    forall x, k | x in O && 0 <= k < |N|
      ensures N[k] != x
    {
      assert Claimable(img, g, Trunc16(N[k] as int));
    }
  }

  /** Writing the head of `N` into the slot of the last member of the chain
      `O` joins the two into one linked list. */
  lemma Join(img: seq<byte>, g: Geometry, O: seq<u16>, N: seq<u16>, first: u16, head: u16)
    requires Terminates(img, g, first) && ChainOf(img, g, first) == O && |O| > 0
    requires forall x :: x in O ==> Addressable(g, x)
    requires SlotFits(img, g, O[|O| - 1])
    requires Linked(img, g, N, head) && |N| > 0
    requires forall x :: x in O ==> x !in N
    ensures Linked(WriteSlot(img, g, O[|O| - 1], head), g, O + N, first)
  {
    var t := O[|O| - 1];
    var img' := WriteSlot(img, g, t, head);
    var M := O + N;
    ChainMembers(img, g, first, Bound(g));
    ChainDistinct(img, g, first, Bound(g));
    assert M[0] == first;
    forall k | 0 <= k < |M|
      ensures Addressable(g, M[k]) && SlotFits(img', g, M[k])
      ensures NextCluster(img', g, M[k]) == if k + 1 < |M| then M[k + 1] else CLUSTER_END
    {
      NextAfterWriteSlot(img, g, t, head, M[k]);
      if k < |O| {
        assert M[k] == O[k] && M[k] in O;
        if k + 1 < |O| {
          ChainLinks(img, g, first, Bound(g), k);
          assert O[k] != t;
          assert M[k + 1] == O[k + 1];
        } else {
          assert M[k + 1] == N[0];
        }
      } else {
        var j := k - |O|;
        assert M[k] == N[j];
        assert M[k] in N && t in O;
        if k + 1 < |M| { assert M[k + 1] == N[j + 1]; }
      }
    }
    assert Linked(img', g, M, first);
  }

  /** A write into the first FAT copy keeps every data cluster's bytes. */
  lemma ZeroedAfterSlot(img: seq<byte>, g: Geometry, t: u16, v: u16, N: seq<u16>)
    requires Contiguous(g) && t < Entries(g)
    requires forall k :: 0 <= k < |N| ==> Addressable(g, N[k])
    requires AllZeroed(img, g, N)
    ensures AllZeroed(WriteSlot(img, g, t, v), g, N)
  {
    SlotInFat(g, t);
    forall k | 0 <= k < |N|
      ensures Zeroed(WriteSlot(img, g, t, v), g, N[k])
    {
      assert Zeroed(img, g, N[k]);
      DataAfterFat(g, N[k]);
      Store.ReadAfterWriteElsewhere(img, SlotOffset(g, t), U16Bytes(v), ClusterOffset(g, N[k]), g.sizeCluster);
    }
  }

  /** The failure paths of file_new_cluster release the new head, which is
      not on the file's chain: that chain stays as it was. */
  lemma ReleaseKeepsChain(img: seq<byte>, g: Geometry, first: u16, head: u16)
    requires Terminates(img, g, first) && head !in ChainOf(img, g, first)
    ensures ChainOf(Release(img, g, head), g, first) == ChainOf(img, g, first)
  {
    ReleaseKeeps(img, g, head, ChainOf(img, g, first));
    ChainOfKept(img, Release(img, g, head), g, first);
  }

  /** The success path for a file that has clusters: after the slot of the
      old last cluster `t` receives `head`, the file's chain is `O + N`, the
      chain from `head` is still `N` and reads as zeros, and no slot but
      `t`'s changed. */
  lemma Appended(img: seq<byte>, g: Geometry, first: u16, O: seq<u16>, N: seq<u16>, head: u16)
    requires Contiguous(g)
    requires Terminates(img, g, first) && ChainOf(img, g, first) == O && |O| > 0
    requires forall x :: x in O ==> Addressable(g, x)
    requires SlotFits(img, g, O[|O| - 1])
    requires Linked(img, g, N, head) && |N| > 0 && AllZeroed(img, g, N)
    requires forall x :: x in O ==> x !in N
    ensures var t := O[|O| - 1];
      var img' := WriteSlot(img, g, t, head);
      ChainOf(img', g, first) == O + N && ChainOf(img', g, head) == N &&
      AllZeroed(img', g, N) && NextCluster(img', g, t) == head &&
      forall d: u16 :: d != t ==> NextCluster(img', g, d) == NextCluster(img, g, d)
  {
    var t := O[|O| - 1];
    var img' := WriteSlot(img, g, t, head);
    assert t in O;
    Join(img, g, O, N, first, head);
    LinkedChainOf(img', g, O + N, first);
    forall d: u16
      ensures NextCluster(img', g, d) == if d == t then head else NextCluster(img, g, d)
    {
      NextAfterWriteSlot(img, g, t, head, d);
    }
    forall k | 0 <= k < |N|
      ensures N[k] != t
    {
      assert N[k] in N;
    }
    LinkedKept(img, img', g, N, head);
    LinkedChainOf(img', g, N, head);
    forall k | 0 <= k < |N|
      ensures Addressable(g, N[k])
    {
    }
    ZeroedAfterSlot(img, g, t, head, N);
  }

  /** What file_new_cluster(fcb, count) promises when it answers `r`: it
      never reports no space. A failed write answers the -EIO status
      truncated to 16 bits and leaves the FCB and the file's chain as they
      were; it cannot happen when the image covers the FAT and the data
      region. Otherwise the answer is the head of a chain of `count`
      clusters that were claimable, each reading as zeros; the file's chain
      is its old chain followed by them (their head becomes the first
      cluster of a file that had none, and is written into the slot of the
      old last cluster otherwise); and no other link changes. */
  ghost predicate Grown(img: seq<byte>, g: Geometry, fcb: Fcb, count: u32, r: Grow) {
    var O := ChainOf(img, g, fcb.firstCluster);
    r.r != CLUSTER_END &&
    (r.r == EIO_U16 ==> r.fcb == fcb && ChainOf(r.img, g, fcb.firstCluster) == O) &&
    (Covers(img, g) ==> r.r != EIO_U16) &&
    (r.r != EIO_U16 ==>
      var N := ChainOf(r.img, g, r.r);
      InUse(r.r) && |N| == count &&
      (forall k :: 0 <= k < |N| ==> N[k] in ClaimableSet(img, g) && Zeroed(r.img, g, N[k])) &&
      r.fcb.firstCluster == (if InUse(fcb.firstCluster) then fcb.firstCluster else r.r) &&
      (InUse(fcb.firstCluster) ==> |O| > 0 && NextCluster(r.img, g, O[|O| - 1]) == r.r) &&
      ChainOf(r.img, g, r.fcb.firstCluster) == O + N &&
      (forall d: u16 :: d !in O + N ==> NextCluster(r.img, g, d) == NextCluster(img, g, d)))
  }

  /** file_new_cluster with enough claimable slots, on a file whose chain
      ends and holds no free-marked cluster. */
  lemma FileNewClusterEffect(img: seq<byte>, g: Geometry, fcb: Fcb, count: u32)
    requires Usable(g) && Contiguous(g) && NoTruncation(g)
    requires Owned(img, g, fcb.firstCluster)
    requires 0 < count <= |ClaimableSet(img, g)|
    ensures Grown(img, g, fcb, count, FileNewCluster(img, g, fcb, count))
  {
    var a := FreeClusterNum(img, g, count);
    var z := ZeroFill(a.img, g, a.first, Bound(g));
    if !z.ok {
      EffectFillFails(img, g, fcb, count);
    } else if InUse(fcb.firstCluster) {
      EffectAppend(img, g, fcb, count);
    } else {
      EffectFresh(img, g, fcb, count);
    }
  }

  /** What every path of file_new_cluster starts from: the new chain `N`
      after the zero-fill loop, apart from the file's chain `O`, which the
      loop leaves as it was. */
  lemma NewChainApart(img: seq<byte>, g: Geometry, fcb: Fcb, count: u32)
    requires Usable(g) && Contiguous(g) && NoTruncation(g)
    requires Owned(img, g, fcb.firstCluster)
    requires 0 < count <= |ClaimableSet(img, g)|
    ensures var a := FreeClusterNum(img, g, count);
      var z := ZeroFill(a.img, g, a.first, Bound(g));
      var N := ChainOf(a.img, g, a.first);
      var O := ChainOf(img, g, fcb.firstCluster);
      InUse(a.first) && |N| == count && |N| > 0 && a.first == N[0] && |z.img| == |img| &&
      Linked(z.img, g, N, a.first) && ChainOf(z.img, g, a.first) == N &&
      (forall k :: 0 <= k < |N| ==> N[k] in ClaimableSet(img, g)) &&
      (forall d: u16 :: d !in N ==> NextCluster(z.img, g, d) == NextCluster(img, g, d)) &&
      (z.ok ==> AllZeroed(z.img, g, N)) && (Covers(img, g) ==> z.ok) &&
      (forall x :: x in O ==> x !in N && Addressable(g, x)) &&
      Terminates(z.img, g, fcb.firstCluster) && ChainOf(z.img, g, fcb.firstCluster) == O
  {
    var first := fcb.firstCluster;
    var O := ChainOf(img, g, first);
    var a := FreeClusterNum(img, g, count);
    var z := ZeroFill(a.img, g, a.first, Bound(g));
    NewChainZeroed(img, g, count);
    var N := ChainOf(a.img, g, a.first);
    OwnedApart(img, g, O, N);
    ChainOfKept(img, z.img, g, first);
    LinkedChainOf(z.img, g, N, a.first);
  }

  /** The zero-fill loop fails: -EIO, the file's chain as it was. */
  lemma EffectFillFails(img: seq<byte>, g: Geometry, fcb: Fcb, count: u32)
    requires Usable(g) && Contiguous(g) && NoTruncation(g)
    requires Owned(img, g, fcb.firstCluster)
    requires 0 < count <= |ClaimableSet(img, g)|
    requires var a := FreeClusterNum(img, g, count); !ZeroFill(a.img, g, a.first, Bound(g)).ok
    ensures Grown(img, g, fcb, count, FileNewCluster(img, g, fcb, count))
  {
    var a := FreeClusterNum(img, g, count);
    var z := ZeroFill(a.img, g, a.first, Bound(g));
    NewChainApart(img, g, fcb, count);
    assert a.first in ChainOf(a.img, g, a.first);
    ReleaseKeepsChain(z.img, g, fcb.firstCluster, a.first);
    GrownOnEio(img, g, fcb, count, Grow(Release(z.img, g, a.first), fcb, EIO_U16));
  }

  /** A file with clusters: the new chain is linked from its last cluster,
      or -EIO when that cluster's slot lies outside the image. */
  lemma EffectAppend(img: seq<byte>, g: Geometry, fcb: Fcb, count: u32)
    requires Usable(g) && Contiguous(g) && NoTruncation(g)
    requires Owned(img, g, fcb.firstCluster) && InUse(fcb.firstCluster)
    requires 0 < count <= |ClaimableSet(img, g)|
    requires var a := FreeClusterNum(img, g, count); ZeroFill(a.img, g, a.first, Bound(g)).ok
    ensures Grown(img, g, fcb, count, FileNewCluster(img, g, fcb, count))
  {
    var a := FreeClusterNum(img, g, count);
    var z := ZeroFill(a.img, g, a.first, Bound(g));
    var t := Tail(z.img, g, fcb.firstCluster, Bound(g));
    if !SlotFits(z.img, g, t) {
      EffectNoTailSlot(img, g, fcb, count);
    } else {
      EffectLinked(img, g, fcb, count);
    }
  }

  /** The last cluster of the file is the last member of its chain. */
  lemma TailOfFile(img: seq<byte>, g: Geometry, fcb: Fcb, count: u32)
    requires Usable(g) && Contiguous(g) && NoTruncation(g)
    requires Owned(img, g, fcb.firstCluster) && InUse(fcb.firstCluster)
    requires 0 < count <= |ClaimableSet(img, g)|
    ensures var a := FreeClusterNum(img, g, count);
      var z := ZeroFill(a.img, g, a.first, Bound(g));
      var O := ChainOf(img, g, fcb.firstCluster);
      |O| > 0 && Tail(z.img, g, fcb.firstCluster, Bound(g)) == O[|O| - 1]
  {
    var a := FreeClusterNum(img, g, count);
    var z := ZeroFill(a.img, g, a.first, Bound(g));
    NewChainApart(img, g, fcb, count);
    TailIsLast(z.img, g, fcb.firstCluster, Bound(g));
  }

  /** The slot of the file's last cluster lies outside the image: -EIO. */
  lemma EffectNoTailSlot(img: seq<byte>, g: Geometry, fcb: Fcb, count: u32)
    requires Usable(g) && Contiguous(g) && NoTruncation(g)
    requires Owned(img, g, fcb.firstCluster) && InUse(fcb.firstCluster)
    requires 0 < count <= |ClaimableSet(img, g)|
    requires var a := FreeClusterNum(img, g, count);
      var z := ZeroFill(a.img, g, a.first, Bound(g));
      z.ok && !SlotFits(z.img, g, Tail(z.img, g, fcb.firstCluster, Bound(g)))
    ensures Grown(img, g, fcb, count, FileNewCluster(img, g, fcb, count))
  {
    var first := fcb.firstCluster;
    var O := ChainOf(img, g, first);
    var a := FreeClusterNum(img, g, count);
    var z := ZeroFill(a.img, g, a.first, Bound(g));
    NewChainApart(img, g, fcb, count);
    TailOfFile(img, g, fcb, count);
    var t := O[|O| - 1];
    assert t in O;
    if Covers(img, g) { SlotFitsWhenCovers(img, z.img, g, t); }
    assert a.first in ChainOf(a.img, g, a.first);
    ReleaseKeepsChain(z.img, g, first, a.first);
    GrownOnEio(img, g, fcb, count, Grow(Release(z.img, g, a.first), fcb, EIO_U16));
  }

  /** The head of the new chain is written into the slot of the file's last cluster. */
  lemma EffectLinked(img: seq<byte>, g: Geometry, fcb: Fcb, count: u32)
    requires Usable(g) && Contiguous(g) && NoTruncation(g)
    requires Owned(img, g, fcb.firstCluster) && InUse(fcb.firstCluster)
    requires 0 < count <= |ClaimableSet(img, g)|
    requires var a := FreeClusterNum(img, g, count);
      var z := ZeroFill(a.img, g, a.first, Bound(g));
      z.ok && SlotFits(z.img, g, Tail(z.img, g, fcb.firstCluster, Bound(g)))
    ensures Grown(img, g, fcb, count, FileNewCluster(img, g, fcb, count))
  {
    var first := fcb.firstCluster;
    var O := ChainOf(img, g, first);
    var a := FreeClusterNum(img, g, count);
    var z := ZeroFill(a.img, g, a.first, Bound(g));
    var N := ChainOf(a.img, g, a.first);
    NewChainApart(img, g, fcb, count);
    TailOfFile(img, g, fcb, count);
    var t := O[|O| - 1];
    Appended(z.img, g, first, O, N, a.first);
    var img' := WriteSlot(z.img, g, t, a.first);
    forall d: u16 | d !in O + N
      ensures NextCluster(img', g, d) == NextCluster(img, g, d)
    {
      assert d != t && d !in N;
    }
    GrownOnSuccess(img, g, fcb, count, Grow(img', fcb, a.first), N);
  }

  /** A file without clusters: the new chain becomes its chain. */
  lemma EffectFresh(img: seq<byte>, g: Geometry, fcb: Fcb, count: u32)
    requires Usable(g) && Contiguous(g) && NoTruncation(g)
    requires Owned(img, g, fcb.firstCluster) && !InUse(fcb.firstCluster)
    requires 0 < count <= |ClaimableSet(img, g)|
    requires var a := FreeClusterNum(img, g, count); ZeroFill(a.img, g, a.first, Bound(g)).ok
    ensures Grown(img, g, fcb, count, FileNewCluster(img, g, fcb, count))
  {
    var a := FreeClusterNum(img, g, count);
    var z := ZeroFill(a.img, g, a.first, Bound(g));
    NewChainApart(img, g, fcb, count);
    assert ChainOf(img, g, fcb.firstCluster) == [];
    GrownOnSuccess(img, g, fcb, count, Grow(z.img, fcb.(firstCluster := a.first), a.first),
                   ChainOf(a.img, g, a.first));
  }

  /** A failed write that leaves the file's chain as it was. */
  lemma GrownOnEio(img: seq<byte>, g: Geometry, fcb: Fcb, count: u32, r: Grow)
    requires r.r == EIO_U16 && r.fcb == fcb && !Covers(img, g)
    requires ChainOf(r.img, g, fcb.firstCluster) == ChainOf(img, g, fcb.firstCluster)
    ensures Grown(img, g, fcb, count, r)
  {
  }

  /** A new chain `N` in place, as Grown describes it. */
  lemma GrownOnSuccess(img: seq<byte>, g: Geometry, fcb: Fcb, count: u32, r: Grow, N: seq<u16>)
    requires InUse(r.r) && ChainOf(r.img, g, r.r) == N && |N| == count
    requires forall k :: 0 <= k < |N| ==> N[k] in ClaimableSet(img, g)
    requires AllZeroed(r.img, g, N)
    requires var O := ChainOf(img, g, fcb.firstCluster);
      r.fcb.firstCluster == (if InUse(fcb.firstCluster) then fcb.firstCluster else r.r) &&
      (InUse(fcb.firstCluster) ==> |O| > 0 && NextCluster(r.img, g, O[|O| - 1]) == r.r) &&
      ChainOf(r.img, g, r.fcb.firstCluster) == O + N &&
      (forall d: u16 :: d !in O + N ==> NextCluster(r.img, g, d) == NextCluster(img, g, d))
    ensures Grown(img, g, fcb, count, r)
  {
    assert r.r != CLUSTER_END && r.r != EIO_U16;
  }

  /** Releasing a cluster outside `O` keeps the links of `O`. */
  lemma ReleaseKeeps(img: seq<byte>, g: Geometry, c: u16, O: seq<u16>)
    requires c !in O
    ensures forall x :: x in O ==> NextCluster(Release(img, g, c), g, x) == NextCluster(img, g, x)
  {
    forall x | x in O
      ensures NextCluster(Release(img, g, c), g, x) == NextCluster(img, g, x)
    {
      ReleaseFreesOnlyHead(img, g, c, x);
    }
  }

  // ---------------------------------------------------------------------
  // The growing branch of adjust_cluster_count (utils.c:587-591)

  /** What file_new_cluster does to the length of the file's chain: a
      failed write keeps the FCB and the length, a success adds `count`,
      and on a covering image the write does not fail. */
  lemma GrowLength(img: seq<byte>, g: Geometry, fcb: Fcb, count: u32)
    requires Usable(g) && Contiguous(g) && NoTruncation(g)
    requires Owned(img, g, fcb.firstCluster)
    requires 0 < count <= |ClaimableSet(img, g)|
    ensures var r := FileNewCluster(img, g, fcb, count);
      var have := ClusterCount(img, g, fcb.firstCluster);
      r.r != CLUSTER_END &&
      (r.r == EIO_U16 ==> r.fcb == fcb && ClusterCount(r.img, g, fcb.firstCluster) == have) &&
      (r.r != EIO_U16 ==> ClusterCount(r.img, g, r.fcb.firstCluster) == have + count) &&
      (Covers(img, g) ==> r.r != EIO_U16)
  {
    FileNewClusterEffect(img, g, fcb, count);
  }

  /** Growing a file whose chain ends and holds no free-marked cluster, with
      enough claimable slots, answers 0. Then either the chain has the new
      length, or file_new_cluster failed to write and the FCB and the chain
      are as they were; on an image that covers the FAT and the data region
      the chain always has the new length. */
  lemma AdjustGrows(img: seq<byte>, g: Geometry, fcb: Fcb, n: u32)
    requires Usable(g) && Contiguous(g) && NoTruncation(g)
    requires Owned(img, g, fcb.firstCluster)
    requires ClusterCount(img, g, fcb.firstCluster) < n
    requires n - ClusterCount(img, g, fcb.firstCluster) <= |ClaimableSet(img, g)|
    ensures var r := Adjust(img, g, fcb, n);
      var have := ClusterCount(img, g, fcb.firstCluster);
      r.ret == 0 &&
      (ClusterCount(r.img, g, r.fcb.firstCluster) == n ||
       (r.fcb == fcb && ClusterCount(r.img, g, fcb.firstCluster) == have)) &&
      (Covers(img, g) ==> ClusterCount(r.img, g, r.fcb.firstCluster) == n)
  {
    var have := ClusterCount(img, g, fcb.firstCluster);
    var grown := FileNewCluster(img, g, fcb, n - have as u32);
    GrowLength(img, g, fcb, n - have as u32);
    assert Adjust(img, g, fcb, n) == Resize(grown.img, grown.fcb, 0);
  }

  /** A failed write inside file_new_cluster comes back as the truncated
      -EIO status, which is not END, so the growing branch answers 0 with
      the chain not grown. */
  lemma AdjustIgnoresEio(img: seq<byte>, g: Geometry, fcb: Fcb, n: u32)
    requires Usable(g) && Contiguous(g) && NoTruncation(g)
    requires Owned(img, g, fcb.firstCluster)
    requires ClusterCount(img, g, fcb.firstCluster) < n
    requires n - ClusterCount(img, g, fcb.firstCluster) <= |ClaimableSet(img, g)|
    requires FileNewCluster(img, g, fcb, n - ClusterCount(img, g, fcb.firstCluster) as u32).r == EIO_U16
    ensures var r := Adjust(img, g, fcb, n);
      r.ret == 0 && r.fcb == fcb && ClusterCount(r.img, g, fcb.firstCluster) < n
  {
    var have := ClusterCount(img, g, fcb.firstCluster);
    var grown := FileNewCluster(img, g, fcb, n - have as u32);
    GrowLength(img, g, fcb, n - have as u32);
    assert Adjust(img, g, fcb, n) == Resize(grown.img, grown.fcb, 0);
  }

  /** Shrinking to `n > 0` clusters marks the new last cluster FREE instead
      of END: that cluster is still the file's last one, yet it reads as free,
      so the allocator may hand it out again and the chain is no longer one a
      file can own. */
  lemma ShrinkLeavesTailClaimable(img: seq<byte>, g: Geometry, fcb: Fcb, n: u32)
    requires Terminates(img, g, fcb.firstCluster)
    requires 0 < n < ClusterCount(img, g, fcb.firstCluster)
    requires Adjust(img, g, fcb, n).ret == 0
    ensures var r := Adjust(img, g, fcb, n);
      var C := ChainOf(r.img, g, r.fcb.firstCluster);
      |C| == n && C[n - 1] in ClaimableSet(r.img, g) && !Owned(r.img, g, r.fcb.firstCluster)
  {
    var c0 := fcb.firstCluster;
    var r := Adjust(img, g, fcb, n);
    var pre := Walk(img, g, c0, n - 1);
    AdjustShrinks(img, g, fcb, n);
    assert r.img == Release(WriteSlot(img, g, pre, CLUSTER_FREE), g, Walk(img, g, c0, n));
    CutTail(img, g, c0, n);
    var C := ChainOf(r.img, g, c0);
    assert Trunc16(pre as int) == pre;
    NextClusterOutside(r.img, g, pre);
    assert Claimable(r.img, g, pre);
    assert pre in C;
  }

  /** The cut a shrink makes: the kept last cluster `pre` is a data cluster
      whose slot reads FREE, and it is still the last of the `n` members of
      the chain. */
  lemma CutTail(img: seq<byte>, g: Geometry, c0: u16, n: nat)
    requires Terminates(img, g, c0)
    requires 0 < n < ClusterCount(img, g, c0)
    requires SlotFits(img, g, Walk(img, g, c0, n - 1))
    ensures var pre := Walk(img, g, c0, n - 1);
      var img2 := Release(WriteSlot(img, g, pre, CLUSTER_FREE), g, Walk(img, g, c0, n));
      Addressable(g, pre) && NextCluster(img2, g, pre) == CLUSTER_FREE &&
      |ChainOf(img2, g, c0)| == n && ChainOf(img2, g, c0)[n - 1] == pre
  {
    var pre := Walk(img, g, c0, n - 1);
    var img2 := Release(WriteSlot(img, g, pre, CLUSTER_FREE), g, Walk(img, g, c0, n));
    ChainMembers(img, g, c0, Bound(g));
    ChainLinks(img, g, c0, Bound(g), n - 1);
    assert pre == ChainOf(img, g, c0)[n - 1];
    CutKeepsPrefix(img, g, c0, n);
    CutLength(img, g, c0, n);
    ChainMembers(img2, g, c0, Bound(g));
  }
}
