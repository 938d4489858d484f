/** When file_new_cluster, adjust_cluster_count and write_file report that
    no space is left (utils.c:449-450, 588-589 and 337-339). */
module NoSpace {
  import opened Layout
  import opened Geometry
  import opened Errors
  import opened Fat
  import opened Alloc
  import FileData

  /** file_new_cluster answers END exactly when it asks for no cluster or
      for more than are claimable: every later failure answers the
      truncated -EIO status or the new head, neither of which is END. */
  lemma FileNewClusterEnd(img: seq<byte>, g: Geometry, fcb: Fcb, count: u32)
    requires NoTruncation(g)
    ensures FileNewCluster(img, g, fcb, count).r == CLUSTER_END <==>
      count == 0 || |ClaimableSet(img, g)| < count
  {
    FreeClusterNumEnd(img, g, count);
  }

  /** Growing answers -ENOSPC exactly when more clusters are missing than
      are claimable; the FCB is then unchanged, nothing outside the FAT
      changed, and what the allocator leaves claimable is at most one slot
      that was claimable before. */
  lemma AdjustNoSpace(img: seq<byte>, g: Geometry, fcb: Fcb, n: u32)
    requires NoTruncation(g)
    requires ClusterCount(img, g, fcb.firstCluster) < n
    ensures var r := Adjust(img, g, fcb, n);
      var have := ClusterCount(img, g, fcb.firstCluster);
      (r.ret == -ENOSPC <==> n - have > |ClaimableSet(img, g)|) &&
      (r.ret == -ENOSPC ==>
        r.fcb == fcb && SameOutsideFat(img, r.img, g) &&
        ClaimableSet(r.img, g) <= ClaimableSet(img, g) && |ClaimableSet(r.img, g)| <= 1)
  {
    var have := ClusterCount(img, g, fcb.firstCluster);
    var count := (n - have) as u32;
    FileNewClusterEnd(img, g, fcb, count);
    if count as int > |ClaimableSet(img, g)| {
      FreeClusterNumFails(img, g, count);
    }
  }

  /** Neither shrinking nor keeping the count answers -ENOSPC: that status
      comes only from a growth. */
  lemma AdjustNoSpaceOnlyGrowing(img: seq<byte>, g: Geometry, fcb: Fcb, n: u32)
    requires n <= ClusterCount(img, g, fcb.firstCluster)
    ensures Adjust(img, g, fcb, n).ret != -ENOSPC
  {
  }

  /** A non-empty write_file that does not overflow answers -ENOSPC exactly
      when the chain is shorter than the write needs and more clusters are
      missing than are claimable. */
  lemma WriteNoSpace(img: seq<byte>, g: Geometry, fcb: Fcb, fcbOffset: int, data: seq<byte>,
                     offset: nat)
    requires Usable(g) && NoTruncation(g)
    ensures var w := FileData.WriteFile(img, g, fcb, fcbOffset, data, offset);
      var want := FileData.ClustersFor(g, offset + |data|);
      var have := ClusterCount(img, g, fcb.firstCluster);
      w.ret == -ENOSPC <==>
        0 < |data| && offset + |data| < TWO_64 && have < want && want - have > |ClaimableSet(img, g)|
  {
    if 0 < |data| && offset + |data| < TWO_64 {
      var want := FileData.ClustersFor(g, offset + |data|);
      WriteNoSpaceIsEnd(img, g, fcb, fcbOffset, data, offset);
      ExtendEnd(img, g, fcb, want);
    }
  }

  /** Past its first two checks, write_file answers -ENOSPC exactly when the
      extension step answers END: the rest answers -EIO or the length. */
  lemma WriteNoSpaceIsEnd(img: seq<byte>, g: Geometry, fcb: Fcb, fcbOffset: int, data: seq<byte>,
                          offset: nat)
    requires Usable(g) && 0 < |data| && offset + |data| < TWO_64
    ensures var grown := FileData.Extend(img, g, fcb, FileData.ClustersFor(g, offset + |data|));
      FileData.WriteFile(img, g, fcb, fcbOffset, data, offset).ret == -ENOSPC <==>
        grown.r == CLUSTER_END
  {
    var grown := FileData.Extend(img, g, fcb, FileData.ClustersFor(g, offset + |data|));
    if grown.r != CLUSTER_END {
      var newSize: u32 := (offset + |data|) % TWO_32;
      var f := if newSize > grown.fcb.size then grown.fcb.(size := newSize) else grown.fcb;
      assert FileData.WriteFile(img, g, fcb, fcbOffset, data, offset) ==
        FileData.WriteData(grown.img, g, f, fcbOffset, data, offset);
      FileData.WriteDataOutcome(grown.img, g, f, fcbOffset, data, offset);
    }
  }

  /** The extension step answers END exactly when the chain is shorter than
      `want` and more clusters are missing than are claimable. */
  lemma ExtendEnd(img: seq<byte>, g: Geometry, fcb: Fcb, want: u32)
    requires NoTruncation(g)
    ensures var have := ClusterCount(img, g, fcb.firstCluster);
      FileData.Extend(img, g, fcb, want).r == CLUSTER_END <==>
        have < want && want - have > |ClaimableSet(img, g)|
  {
    var have := ClusterCount(img, g, fcb.firstCluster);
    if want > have {
      FileNewClusterEnd(img, g, fcb, want - have as u32);
    }
  }
}
