/** What get_free_cluster_num (utils.c:487-517) builds: on success the
    `count` lowest claimable clusters, linked from the last claimed down to
    the first claimed, which holds END; on failure END, with all but at most
    one cluster of the partial chain lost (release_cluster frees only the
    head). The statements hold when the FAT has at most 2^16 slots, so that the
    `size_t` index and the `uint16_t` cluster number agree. */
module Alloc {
  import opened Layout
  import opened Geometry
  import opened Fat
  import Store

  /** Every slot index fits in a `uint16_t`. */
  predicate NoTruncation(g: Geometry) {
    Entries(g) <= 0x1_0000
  }

  /** The slots get_free_cluster_num may claim. */
  function ClaimableSet(img: seq<byte>, g: Geometry): set<int> {
    set i | 0 <= i < Entries(g) && Claimable(img, g, i)
  }

  /** `L` is a chain starting at `first` in `img`: each member's slot lies in
      the first FAT copy, holds the next member, and the last holds END. */
  predicate Linked(img: seq<byte>, g: Geometry, L: seq<u16>, first: u16) {
    first == (if |L| == 0 then CLUSTER_END else L[0]) &&
    (forall k :: 0 <= k < |L| ==> Addressable(g, L[k]) && SlotFits(img, g, L[k])) &&
    (forall k {:trigger NextCluster(img, g, L[k])} :: 0 <= k < |L| ==>
      NextCluster(img, g, L[k]) == if k + 1 < |L| then L[k + 1] else CLUSTER_END)
  }

  /** A linked list of clusters is exactly the chain the walkers follow. */
  lemma {:induction false} LinkedIsChain(img: seq<byte>, g: Geometry, L: seq<u16>, first: u16)
    requires Linked(img, g, L, first)
    ensures Chain(img, g, first, |L|) == L && Ends(img, g, first, |L|)
    decreases |L|
  {
    if |L| > 0 {
      var n := NextCluster(img, g, first);
      assert n == if 1 < |L| then L[1] else CLUSTER_END;
      LinkedTail(img, g, L, first);
      LinkedIsChain(img, g, L[1..], n);
      assert L == [first] + L[1..];
    }
  }

  /** Dropping the head of a linked list leaves it linked from the head's link. */
  lemma LinkedTail(img: seq<byte>, g: Geometry, L: seq<u16>, first: u16)
    requires Linked(img, g, L, first) && |L| > 0
    ensures Linked(img, g, L[1..], NextCluster(img, g, first))
  {
    assert NextCluster(img, g, L[0]) == if 1 < |L| then L[1] else CLUSTER_END;
    forall k | 0 <= k < |L[1..]|
      ensures NextCluster(img, g, L[1..][k]) == if k + 1 < |L[1..]| then L[1..][k + 1] else CLUSTER_END
    {
      assert L[1..][k] == L[k + 1];
      assert NextCluster(img, g, L[k + 1]) == if k + 2 < |L| then L[k + 2] else CLUSTER_END;
      if k + 1 < |L[1..]| { assert L[1..][k + 1] == L[k + 2]; }
    }
  }

  /** The state between two rounds, relative to the image `img0` the call began with:
      `L` is the chain built so far; a slot is claimable in `img0` exactly when
      it is still claimable or in `L`; every member of `L` lies below every
      slot still claimable, members descend along the chain, and only the
      slots of `L` have changed. */
  ghost predicate RoundInv(img0: seq<byte>, img: seq<byte>, g: Geometry, L: seq<u16>, first: u16) {
    Linked(img, g, L, first) &&
    (forall j :: j in ClaimableSet(img0, g) <==> j in ClaimableSet(img, g) || j in L) &&
    (forall k, j :: 0 <= k < |L| && j in ClaimableSet(img, g) ==> L[k] < j) &&
    (forall k :: 0 < k < |L| ==> L[k - 1] > L[k]) &&
    (forall d: u16 :: d !in L ==> NextCluster(img, g, d) == NextCluster(img0, g, d)) &&
    SameOutsideFat(img0, img, g)
  }

  lemma FirstFreeIsMin(img: seq<byte>, g: Geometry)
    ensures var i := FirstFree(img, g, 0);
      (i == Entries(g) <==> ClaimableSet(img, g) == {}) &&
      (i < Entries(g) ==> i in ClaimableSet(img, g) && forall j :: j in ClaimableSet(img, g) ==> i <= j)
  {
    var i := FirstFree(img, g, 0);
    FirstFreeIsFirst(img, g, 0);
    if i < Entries(g) {
      assert i in ClaimableSet(img, g);
    }
  }

  /** Claiming slot `i` with a non-FREE value: the slot now reads `v`, every
      other slot reads as before, and `i` leaves the claimable set. */
  lemma ClaimSlot(img: seq<byte>, g: Geometry, i: int, v: u16)
    requires NoTruncation(g) && 0 <= i < Entries(g) && Claimable(img, g, i) && v != CLUSTER_FREE
    ensures SlotFits(img, g, i) && Trunc16(i) == i
    ensures forall d: u16 ::
              NextCluster(WriteSlot(img, g, i, v), g, d) == if d as int == i then v else NextCluster(img, g, d)
    ensures ClaimableSet(WriteSlot(img, g, i, v), g) == ClaimableSet(img, g) - {i}
    ensures SameOutsideFat(img, WriteSlot(img, g, i, v), g)
  {
    assert Trunc16(i) == i;
    var img' := WriteSlot(img, g, i, v);
    forall d: u16
      ensures NextCluster(img', g, d) == if d as int == i then v else NextCluster(img, g, d)
    {
      NextAfterWriteSlot(img, g, i, v, d);
    }
    ClaimableAfterWrite(img, img', g, i, v);
    WriteSlotInsideFat(img, g, i, v);
  }

  lemma ClaimableAfterWrite(img: seq<byte>, img': seq<byte>, g: Geometry, i: int, v: u16)
    requires NoTruncation(g) && 0 <= i < Entries(g) && v != CLUSTER_FREE
    requires forall d: u16 :: NextCluster(img', g, d) == if d as int == i then v else NextCluster(img, g, d)
    ensures ClaimableSet(img', g) == ClaimableSet(img, g) - {i}
  {
    forall j | 0 <= j < Entries(g)
      ensures Claimable(img', g, j) <==> Claimable(img, g, j) && j != i
    {
      assert Trunc16(j) == j;
      assert NextCluster(img', g, j as u16) == if j == i then v else NextCluster(img, g, j as u16);
    }
  }

  /** Pushing a new head `c` whose slot now holds the old head onto a chain
      whose slots did not change. */
  lemma LinkedPush(img: seq<byte>, img': seq<byte>, g: Geometry, L: seq<u16>, first: u16, c: u16)
    requires Linked(img, g, L, first) && Addressable(g, c) && SlotFits(img', g, c) && |img'| == |img|
    requires NextCluster(img', g, c) == first
    requires forall k :: 0 <= k < |L| ==> L[k] != c
    requires forall d: u16 :: d != c ==> NextCluster(img', g, d) == NextCluster(img, g, d)
    ensures Linked(img', g, [c] + L, c)
  {
    var L' := [c] + L;
    forall k | 0 <= k < |L'|
      ensures Addressable(g, L'[k]) && SlotFits(img', g, L'[k])
    {
      if k > 0 {
        assert L'[k] == L[k - 1];
        assert SlotFits(img, g, L[k - 1]);
      }
    }
    forall k | 0 <= k < |L'|
      ensures NextCluster(img', g, L'[k]) == if k + 1 < |L'| then L'[k + 1] else CLUSTER_END
    {
      if k == 0 {
        if |L| > 0 { assert L'[1] == L[0]; }
      } else {
        var x := L[k - 1];
        assert L'[k] == x && x != c;
        assert NextCluster(img', g, x) == NextCluster(img, g, x);
        assert NextCluster(img, g, x) == if k < |L| then L[k] else CLUSTER_END;
        if k + 1 < |L'| { assert L'[k + 1] == L[k]; }
      }
    }
    assert L'[0] == c;
    assert forall k :: 0 <= k < |L'| ==> Addressable(g, L'[k]) && SlotFits(img', g, L'[k]);
    assert Linked(img', g, L', c);
  }

  /** One round keeps the invariant, given what the slot write did. */
  lemma RoundInvStep(img0: seq<byte>, img: seq<byte>, img': seq<byte>, g: Geometry, L: seq<u16>, first: u16, i: int)
    requires NoTruncation(g) && RoundInv(img0, img, g, L, first)
    requires 0 <= i < Entries(g) && i in ClaimableSet(img, g)
    requires forall j :: j in ClaimableSet(img, g) ==> i <= j
    requires SlotFits(img, g, i) && |img'| == |img|
    requires forall d: u16 :: NextCluster(img', g, d) == if d as int == i then first else NextCluster(img, g, d)
    requires ClaimableSet(img', g) == ClaimableSet(img, g) - {i}
    requires SameOutsideFat(img, img', g)
    ensures RoundInv(img0, img', g, [i as u16] + L, i as u16)
  {
    var c: u16 := i as u16;
    var S := ClaimableSet(img, g);
    var S' := ClaimableSet(img', g);
    var L' := [c] + L;
    assert Addressable(g, c) by { assert Trunc16(i) == i; }
    forall k | 0 <= k < |L|
      ensures L[k] < c
    {
    }
    LinkedPush(img, img', g, L, first, c);
    forall d: u16 | d !in L'
      ensures NextCluster(img', g, d) == NextCluster(img0, g, d)
    {
    }
    forall j
      ensures j in ClaimableSet(img0, g) <==> j in S' || j in L'
    {
      assert j in L' <==> j == i || j in L;
    }
    forall k, j | 0 <= k < |L'| && j in S'
      ensures L'[k] < j
    {
      if k > 0 { assert L'[k] == L[k - 1]; }
    }
    forall k | 0 < k < |L'|
      ensures L'[k - 1] > L'[k]
    {
      if k > 1 { assert L'[k - 1] == L[k - 2] && L'[k] == L[k - 1]; }
      else { assert L'[k] == L[0]; }
    }
    SameOutsideFatTrans(img0, img, img', g);
  }

  /** One round of the outer loop keeps the invariant and claims the lowest slot. */
  lemma RoundStep(img0: seq<byte>, img: seq<byte>, g: Geometry, L: seq<u16>, first: u16)
    requires NoTruncation(g) && RoundInv(img0, img, g, L, first)
    requires FirstFree(img, g, 0) < Entries(g)
    ensures var i := FirstFree(img, g, 0);
      var img' := WriteSlot(img, g, i, first);
      SlotFits(img, g, i) && Trunc16(i) == i &&
      RoundInv(img0, img', g, [i as u16] + L, i as u16) &&
      ClaimableSet(img', g) == ClaimableSet(img, g) - {i}
  {
    var i := FirstFree(img, g, 0);
    FirstFreeIsMin(img, g);
    // the claimed slot now holds the previous head, which is END or in use
    assert first != CLUSTER_FREE by {
      if |L| > 0 { assert Addressable(g, L[0]); }
    }
    ClaimSlot(img, g, i, first);
    RoundInvStep(img0, img, WriteSlot(img, g, i, first), g, L, first, i);
  }

  /** What the rounds that end in giving up keep: the head so far is END
      or a slot inside the FAT that was claimable at the start, no slot has
      become claimable, and only the FAT has changed. */
  ghost predicate GiveUpInv(img0: seq<byte>, img: seq<byte>, g: Geometry, first: u16) {
    (first == CLUSTER_END || (Addressable(g, first) && SlotFits(img, g, first) && first as int in ClaimableSet(img0, g))) &&
    ClaimableSet(img, g) <= ClaimableSet(img0, g) &&
    SameOutsideFat(img0, img, g)
  }

  /** The outcome of rounds that gave up: END, at most one claimable slot
      left, none that was not claimable at the start, only the FAT changed. */
  ghost predicate GaveUp(img0: seq<byte>, g: Geometry, r: Alloc) {
    r.first == CLUSTER_END && ClaimableSet(r.img, g) <= ClaimableSet(img0, g) &&
    |ClaimableSet(r.img, g)| <= 1 && SameOutsideFat(img0, r.img, g)
  }

  /** Releasing the head of the partial chain once no slot is claimable
      leaves at most that head claimable. */
  lemma GiveUpLeaksAllButHead(img0: seq<byte>, img: seq<byte>, g: Geometry, first: u16)
    requires NoTruncation(g) && GiveUpInv(img0, img, g, first) && ClaimableSet(img, g) == {}
    ensures var img' := Release(img, g, first);
      ClaimableSet(img', g) <= ClaimableSet(img0, g) && |ClaimableSet(img', g)| <= 1 &&
      SameOutsideFat(img0, img', g)
  {
    var img' := Release(img, g, first);
    if first == CLUSTER_END {
      assert img' == img;
    } else {
      forall d: u16 | d != first
        ensures NextCluster(img', g, d) == NextCluster(img, g, d)
      {
        ReleaseFreesOnlyHead(img, g, first, d);
      }
      OnlyHeadClaimable(img, img', g, first);
      WriteSlotInsideFat(img, g, first, CLUSTER_FREE);
      SameOutsideFatTrans(img0, img, img', g);
    }
  }

  lemma OnlyHeadClaimable(img: seq<byte>, img': seq<byte>, g: Geometry, c: u16)
    requires NoTruncation(g) && ClaimableSet(img, g) == {}
    requires forall d: u16 :: d != c ==> NextCluster(img', g, d) == NextCluster(img, g, d)
    ensures ClaimableSet(img', g) <= {c as int} && |ClaimableSet(img', g)| <= 1
  {
    forall j | 0 <= j < Entries(g) && j != c as int
      ensures !Claimable(img', g, j)
    {
      assert Trunc16(j) == j;
      assert j !in ClaimableSet(img, g);
      assert NextCluster(img', g, j as u16) == NextCluster(img, g, j as u16);
    }
    if c as int in ClaimableSet(img', g) {
      assert ClaimableSet(img', g) == {c as int};
    } else {
      assert ClaimableSet(img', g) == {};
    }
  }

  /** The outcome of rounds that all found a slot, having started from the
      chain `L`: the chain from the returned head is `count` new slots
      followed by `L`, and the invariant holds of it. */
  ghost predicate Built(img0: seq<byte>, g: Geometry, L: seq<u16>, count: nat, r: Alloc) {
    var C := Chain(r.img, g, r.first, |L| + count);
    RoundInv(img0, r.img, g, C, r.first) && |C| == |L| + count && C[count..] == L
  }

  lemma SucceedStep(img0: seq<byte>, img: seq<byte>, g: Geometry, L: seq<u16>, first: u16, count: nat)
    requires NoTruncation(g) && RoundInv(img0, img, g, L, first)
    requires 0 < count <= |ClaimableSet(img, g)|
    ensures var i := FirstFree(img, g, 0);
      var img' := WriteSlot(img, g, i, first);
      i < Entries(g) &&
      RoundInv(img0, img', g, [i as u16] + L, i as u16) &&
      count - 1 <= |ClaimableSet(img', g)| &&
      AllocRounds(img, g, first, count) == AllocRounds(img', g, i as u16, count - 1)
  {
    FirstFreeIsMin(img, g);
    var i := FirstFree(img, g, 0);
    RoundStep(img0, img, g, L, first);
    var img' := WriteSlot(img, g, i, first);
    var S := ClaimableSet(img, g);
    assert S == ClaimableSet(img', g) + {i};
  }

  lemma BuiltPop(img0: seq<byte>, g: Geometry, L: seq<u16>, c: u16, count: nat, r: Alloc)
    requires count > 0 && Built(img0, g, [c] + L, count - 1, r)
    ensures Built(img0, g, L, count, r)
  {
    var C := Chain(r.img, g, r.first, |L| + count);
    assert |[c] + L| + (count - 1) == |L| + count;
    assert C[count..] == C[count - 1..][1..];
  }

  /** Rounds that find a slot each time. */
  lemma {:induction false} RoundsSucceed(img0: seq<byte>, img: seq<byte>, g: Geometry, L: seq<u16>, first: u16, count: nat)
    requires NoTruncation(g) && RoundInv(img0, img, g, L, first)
    requires count <= |ClaimableSet(img, g)|
    ensures Built(img0, g, L, count, AllocRounds(img, g, first, count))
    decreases count, 1
  {
    if count == 0 {
      LinkedIsChain(img, g, L, first);
    } else {
      var i := FirstFree(img, g, 0);
      SucceedStep(img0, img, g, L, first, count);
      RoundsSucceedAfter(img0, WriteSlot(img, g, i, first), g, L, i as u16, count);
    }
  }

  lemma {:induction false} RoundsSucceedAfter(img0: seq<byte>, img': seq<byte>, g: Geometry, L: seq<u16>, c: u16, count: nat)
    requires NoTruncation(g) && RoundInv(img0, img', g, [c] + L, c)
    requires 0 < count && count - 1 <= |ClaimableSet(img', g)|
    ensures Built(img0, g, L, count, AllocRounds(img', g, c, count - 1))
    decreases count, 0
  {
    RoundsSucceed(img0, img', g, [c] + L, c, count - 1);
    BuiltPop(img0, g, L, c, count, AllocRounds(img', g, c, count - 1));
  }

  /** Rounds that run out of claimable slots. */
  lemma {:induction false} RoundsGiveUp(img0: seq<byte>, img: seq<byte>, g: Geometry, first: u16, count: nat)
    requires NoTruncation(g) && GiveUpInv(img0, img, g, first)
    requires count > |ClaimableSet(img, g)|
    ensures GaveUp(img0, g, AllocRounds(img, g, first, count))
    decreases count, 1
  {
    FirstFreeIsMin(img, g);
    if FirstFree(img, g, 0) == Entries(g) {
      GiveUpLeaksAllButHead(img0, img, g, first);
    } else {
      var i := FirstFree(img, g, 0);
      GiveUpStep(img0, img, g, first, count);
      var img' := WriteSlot(img, g, i, first);
      RoundsGiveUpAfter(img0, img, img', g, first, i as u16, count);
    }
  }

  lemma GiveUpStep(img0: seq<byte>, img: seq<byte>, g: Geometry, first: u16, count: nat)
    requires NoTruncation(g) && GiveUpInv(img0, img, g, first)
    requires count > 0 && FirstFree(img, g, 0) < Entries(g)
    ensures var i := FirstFree(img, g, 0);
      var img' := WriteSlot(img, g, i, first);
      GiveUpInv(img0, img', g, i as u16) &&
      |ClaimableSet(img', g)| == |ClaimableSet(img, g)| - 1 &&
      AllocRounds(img, g, first, count) == AllocRounds(img', g, i as u16, count - 1)
  {
    var i := FirstFree(img, g, 0);
    FirstFreeIsMin(img, g);
    assert first != CLUSTER_FREE;
    ClaimSlot(img, g, i, first);
    var img' := WriteSlot(img, g, i, first);
    var S := ClaimableSet(img, g);
    assert S == ClaimableSet(img', g) + {i};
    SameOutsideFatTrans(img0, img, img', g);
  }

  lemma {:induction false} RoundsGiveUpAfter(img0: seq<byte>, img: seq<byte>, img': seq<byte>, g: Geometry, first: u16, i: u16, count: nat)
    requires NoTruncation(g) && GiveUpInv(img0, img', g, i)
    requires count > 0 && count - 1 > |ClaimableSet(img', g)|
    requires AllocRounds(img, g, first, count) == AllocRounds(img', g, i, count - 1)
    ensures GaveUp(img0, g, AllocRounds(img, g, first, count))
    decreases count, 0
  {
    RoundsGiveUp(img0, img', g, i, count - 1);
  }

  /** get_free_cluster_num(count) with enough claimable slots, when the FAT
      has at most 2^16 slots. The returned head starts a chain of `count`
      clusters that ends in END. The chain holds the `count` lowest claimable
      slots in descending order, so the first slot claimed is the last one
      and holds END. Nothing but their slots changes. */
  lemma FreeClusterNumSucceeds(img: seq<byte>, g: Geometry, count: u32)
    requires NoTruncation(g) && 0 < count <= |ClaimableSet(img, g)|
    ensures var r := FreeClusterNum(img, g, count);
      var C := ChainOf(r.img, g, r.first);
      InUse(r.first) &&
      Terminates(r.img, g, r.first) && |C| == count &&
      Linked(r.img, g, C, r.first) &&
      (forall k :: 0 <= k < |C| ==> C[k] in ClaimableSet(img, g)) &&
      (forall k :: 0 < k < |C| ==> C[k - 1] > C[k]) &&
      (forall j :: j in ClaimableSet(img, g) && j !in C ==> C[0] < j) &&
      (forall d: u16 :: d !in C ==> NextCluster(r.img, g, d) == NextCluster(img, g, d)) &&
      SameOutsideFat(img, r.img, g)
  {
    assert RoundInv(img, img, g, [], CLUSTER_END);
    RoundsSucceed(img, img, g, [], CLUSTER_END, count);
    BuiltFromScratch(img, g, count, FreeClusterNum(img, g, count));
  }

  /** The outcome of `count` successful rounds started on an empty chain. */
  lemma BuiltFromScratch(img: seq<byte>, g: Geometry, count: nat, r: Alloc)
    requires Built(img, g, [], count, r) && count > 0
    ensures var C := ChainOf(r.img, g, r.first);
      InUse(r.first) &&
      Terminates(r.img, g, r.first) && |C| == count &&
      Linked(r.img, g, C, r.first) &&
      (forall k :: 0 <= k < |C| ==> C[k] in ClaimableSet(img, g)) &&
      (forall k :: 0 < k < |C| ==> C[k - 1] > C[k]) &&
      (forall j :: j in ClaimableSet(img, g) && j !in C ==> C[0] < j) &&
      (forall d: u16 :: d !in C ==> NextCluster(r.img, g, d) == NextCluster(img, g, d)) &&
      SameOutsideFat(img, r.img, g)
  {
    var C := Chain(r.img, g, r.first, count);
    assert RoundInv(img, r.img, g, C, r.first) && |C| == count;
    BuiltChain(img, r.img, g, C, r.first);
    assert ChainOf(r.img, g, r.first) == C;
    forall k | 0 <= k < |C|
      ensures C[k] in ClaimableSet(img, g)
    {
      assert C[k] in C;
    }
  }

  /** A non-empty chain satisfying the round invariant is the chain the walkers see. */
  lemma BuiltChain(img0: seq<byte>, img: seq<byte>, g: Geometry, C: seq<u16>, first: u16)
    requires RoundInv(img0, img, g, C, first) && |C| > 0
    ensures InUse(first) && Terminates(img, g, first) && ChainOf(img, g, first) == C
    ensures forall j :: j in ClaimableSet(img0, g) && j !in C ==> C[0] < j
  {
    assert InUse(first) by { assert Addressable(g, C[0]); }
    LinkedIsChain(img, g, C, first);
    EndsWithinBound(img, g, first, |C|);
    forall j | j in ClaimableSet(img0, g) && j !in C
      ensures C[0] < j
    {
      assert j in ClaimableSet(img, g);
    }
  }

  /** get_free_cluster_num(count) with too few claimable slots: END, and the
      slots claimed before giving up stay allocated except the last one. */
  lemma FreeClusterNumFails(img: seq<byte>, g: Geometry, count: u32)
    requires NoTruncation(g) && count > |ClaimableSet(img, g)|
    ensures var r := FreeClusterNum(img, g, count);
      r.first == CLUSTER_END &&
      ClaimableSet(r.img, g) <= ClaimableSet(img, g) && |ClaimableSet(r.img, g)| <= 1 &&
      SameOutsideFat(img, r.img, g)
  {
    assert GiveUpInv(img, img, g, CLUSTER_END);
    RoundsGiveUp(img, img, g, CLUSTER_END, count);
  }

  /** get_free_cluster_num(count) never returns `-EIO` when the FAT has at
      most 2^16 slots, and returns END exactly when `count` is 0 or fewer
      than `count` slots are claimable. */
  lemma FreeClusterNumEnd(img: seq<byte>, g: Geometry, count: u32)
    requires NoTruncation(g)
    ensures var r := FreeClusterNum(img, g, count);
      r.first != EIO_U16 &&
      (r.first == CLUSTER_END <==> count == 0 || |ClaimableSet(img, g)| < count)
  {
    if count > |ClaimableSet(img, g)| {
      FreeClusterNumFails(img, g, count);
    } else if count > 0 {
      FreeClusterNumSucceeds(img, g, count);
    }
  }
}
