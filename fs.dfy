/** The file operations of fat16.c as functions of the image: each one
    resolves its path with find_fcb, checks what it finds in the order the
    source does, and hands over to the engine (FileData, Fat, Directory). */
module Fs {
  import opened Layout
  import opened Geometry
  import opened Wrappers
  import Store
  import opened Fat
  import opened Errors
  import opened Names
  import opened Directory
  import FileData

  /** The path "/". */
  const ROOT_PATH: seq<byte> := [SLASH]

  const INT32_MAX: nat := 0x7FFF_FFFF

  /** st_mode of a directory, S_IFDIR | 0755, and of a regular file,
      S_IFREG | 0777. */
  const S_IFDIR: nat := 0x4000
  const S_IFREG: nat := 0x8000
  const DIR_MODE: nat := S_IFDIR + 0x1ED
  const FILE_MODE: nat := S_IFREG + 0x1FF

  /** What the uninitialised locals of an operation hold, each on its own:
      the FindOption of find_fcb for the path (`find`), for rename's
      destination (`findTo`) and for the parent of a new entry
      (`findParent`); the operation's FindOption (`opt`); and its `struct
      FCB` buffers before find_fcb has copied anything into them, for the
      path (`fcb`), for rename's `new_file` (`fcbTo`) and for `parent_fcb`
      (`parentFcb`). */
  datatype Stack = Stack(
    find: FindOption, findTo: FindOption, findParent: FindOption,
    opt: FindOption,
    fcb: Fcb, fcbTo: Fcb, parentFcb: Fcb)

  /** The caller's `struct FCB` after find_fcb: what it copied, or what the
      structure held before. */
  function Copied(r: Found, stale: Fcb): (f: Fcb)
    ensures r.fcb.Some? ==> f == r.fcb.value
    ensures r.fcb.None? ==> f == stale
  {
    if r.fcb.Some? then r.fcb.value else stale
  }

  /** Writing one entry back: `-EIO` unless its 32 bytes lie in the image. */
  function PutEntry(img: seq<byte>, off: int, f: Fcb): (r: Status)
    ensures r.ret == 0 || r.ret == -EIO
    ensures r.ret == 0 <==> Store.Fits(img, off, FCB_SIZE)
    ensures r.ret == -EIO ==> r.img == img
  {
    if !Store.Fits(img, off, FCB_SIZE) then Status(img, -EIO)
    else Status(Store.Write(img, off, EncodeFcb(f)), 0)
  }

  /** The entry written by PutEntry reads back, and nothing else changes. */
  lemma PutEntryReadsBack(img: seq<byte>, off: int, f: Fcb)
    requires Store.Fits(img, off, FCB_SIZE)
    ensures var r := PutEntry(img, off, f);
      |r.img| == |img| && Store.Read(r.img, off, FCB_SIZE) == EncodeFcb(f) &&
      forall k :: 0 <= k < |img| && !(off <= k < off + FCB_SIZE) ==> r.img[k] == img[k]
  {
    Store.ReadAfterWrite(img, off, EncodeFcb(f));
  }

  /** Two entries written back one after the other, the second only when
      the first succeeded. */
  function PutEntries(img: seq<byte>, off1: int, f1: Fcb, off2: int, f2: Fcb): Status {
    var a := PutEntry(img, off1, f1);
    if a.ret < 0 then a else PutEntry(a.img, off2, f2)
  }

  /** The second entry written reads back; the first one does too unless the
      two places overlap. */
  lemma PutEntriesReadBack(img: seq<byte>, off1: int, f1: Fcb, off2: int, f2: Fcb)
    ensures var r := PutEntries(img, off1, f1, off2, f2);
      (r.ret == 0 || r.ret == -EIO) && |r.img| == |img| &&
      (r.ret == 0 <==> Store.Fits(img, off1, FCB_SIZE) && Store.Fits(img, off2, FCB_SIZE)) &&
      (r.ret == 0 ==> Store.Read(r.img, off2, FCB_SIZE) == EncodeFcb(f2)) &&
      (r.ret == 0 && (off1 + FCB_SIZE <= off2 || off2 + FCB_SIZE <= off1) ==>
        Store.Read(r.img, off1, FCB_SIZE) == EncodeFcb(f1))
  {
    if Store.Fits(img, off1, FCB_SIZE) {
      var a := PutEntry(img, off1, f1);
      PutEntryReadsBack(img, off1, f1);
      if Store.Fits(a.img, off2, FCB_SIZE) {
        PutEntryReadsBack(a.img, off2, f2);
        if off1 + FCB_SIZE <= off2 || off2 + FCB_SIZE <= off1 {
          Store.ReadAfterWriteElsewhere(a.img, off2, EncodeFcb(f2), off1, FCB_SIZE);
        }
      }
    }
  }

  // ---------------------------------------------------------------------
  // fat16_getattr (fat16.c:117-135)

  /** The fields getattr fills: st_mode, st_nlink and, for a regular file
      only, st_size. */
  datatype Attr = Attr(mode: nat, nlink: nat, size: Option<nat>)

  datatype Stat = Stat(ret: int, attr: Option<Attr>)

  function Getattr(img: seq<byte>, g: Geometry, path: seq<byte>, u: Stack): Stat
    requires Usable(g)
  {
    if path == ROOT_PATH then Stat(0, Some(Attr(DIR_MODE, 2, None)))
    else
      var r := FindFcb(img, g, path, u.find);
      if r.ret < 0 then Stat(r.ret, None)
      else
        var f := Copied(r, u.fcb);
        if IsVolumeLabel(f.metadata) then Stat(-ENOENT, None)
        else if IsDirectory(f.metadata) then Stat(0, Some(Attr(DIR_MODE, 2, None)))
        else Stat(0, Some(Attr(FILE_MODE, 1, Some(f.size))))
  }

  /** getattr reports "/" as a directory. Any other path succeeds exactly
      when it resolves to an entry that is not a volume label; that entry is
      reported as a directory when its directory bit is set, and otherwise
      as a regular file of the entry's size. */
  lemma GetattrSpec(img: seq<byte>, g: Geometry, path: seq<byte>, u: Stack)
    requires Usable(g)
    ensures var a := Getattr(img, g, path, u);
      var r := FindFcb(img, g, path, u.find);
      (path == ROOT_PATH ==> a == Stat(0, Some(Attr(DIR_MODE, 2, None)))) &&
      (path != ROOT_PATH ==>
        (a.ret == 0 <==> r.ret >= 0 && !IsVolumeLabel(Copied(r, u.fcb).metadata)) &&
        (a.ret != 0 ==> a.attr == None && (a.ret == -ENOENT || Stale(r, Segments(path), u.find))) &&
        (a.ret == 0 ==>
          var f := Copied(r, u.fcb);
          (EntryNamed(img, r.ret, f, Segments(path)[|Segments(path)| - 1]) || Stale(r, Segments(path), u.find)) &&
          a.attr == Some(if IsDirectory(f.metadata) then Attr(DIR_MODE, 2, None)
                         else Attr(FILE_MODE, 1, Some(f.size)))))
  {
    FindFcbFound(img, g, path, u.find);
  }

  // ---------------------------------------------------------------------
  // fat16_read, fat16_write, fat16_truncate (fat16.c:167-201, 315-330)

  function Read(img: seq<byte>, g: Geometry, path: seq<byte>, offset: nat, size: nat, u: Stack): FileData.Got
    requires Usable(g)
  {
    var r := FindFcb(img, g, path, u.find);
    if r.ret < 0 then FileData.Got(-ENOENT, [])
    else
      var f := Copied(r, u.fcb);
      if IsDirectory(f.metadata) then FileData.Got(-EISDIR, [])
      else FileData.ReadFile(img, g, f, offset, size)
  }

  /** read fails with `-ENOENT` for a path that does not resolve and with
      `-EISDIR` for a directory; otherwise it is read_file on the entry
      found, so it never returns more than the entry's size past `offset`
      nor more than was asked for, and delivers as many bytes as it counts. */
  lemma ReadSpec(img: seq<byte>, g: Geometry, path: seq<byte>, offset: nat, size: nat, u: Stack)
    requires Usable(g)
    ensures var d := Read(img, g, path, offset, size, u);
      var r := FindFcb(img, g, path, u.find);
      (r.ret < 0 ==> d == FileData.Got(-ENOENT, [])) &&
      (r.ret >= 0 && IsDirectory(Copied(r, u.fcb).metadata) ==> d == FileData.Got(-EISDIR, [])) &&
      (r.ret >= 0 && !IsDirectory(Copied(r, u.fcb).metadata) ==>
        var f := Copied(r, u.fcb);
        d == FileData.ReadFile(img, g, f, offset, size) &&
        d.ret <= size && (offset < f.size ==> d.ret <= f.size - offset) &&
        (d.ret >= 0 ==> |d.data| == d.ret) &&
        (offset >= f.size || size == 0 ==> d.ret == 0))
  {
    FindFcbFound(img, g, path, u.find);
    var r := FindFcb(img, g, path, u.find);
    if r.ret >= 0 {
      FileData.ReadFileBound(img, g, Copied(r, u.fcb), offset, size);
      FileData.ReadFileLength(img, g, Copied(r, u.fcb), offset, size);
    }
  }

  function Write(img: seq<byte>, g: Geometry, path: seq<byte>, data: seq<byte>, offset: nat, u: Stack): Status
    requires Usable(g)
  {
    if path == ROOT_PATH then Status(img, -EISDIR)
    else
      var r := FindFcb(img, g, path, u.find);
      if r.ret < 0 then Status(img, -EIO)
      else
        var f := Copied(r, u.fcb);
        if IsDirectory(f.metadata) then Status(img, -EISDIR)
        else if |data| > INT32_MAX then Status(img, -EINVAL)
        else
          var w := FileData.WriteFile(img, g, f, r.ret, data, offset);
          Status(w.img, w.ret)
  }

  /** write refuses "/" and directories with `-EISDIR`, a path that does not
      resolve with `-EIO` and more than INT32_MAX bytes with `-EINVAL`, all
      without touching the image. Otherwise it is write_file on the entry
      found: a write of all the bytes leaves, at the entry's offset, the
      entry with its size raised to the end of the write (as a `uint32_t`)
      and nothing else changed but its first cluster. */
  lemma WriteSpec(img: seq<byte>, g: Geometry, path: seq<byte>, data: seq<byte>, offset: nat, u: Stack)
    requires Usable(g)
    ensures var w := Write(img, g, path, data, offset, u);
      var r := FindFcb(img, g, path, u.find);
      (path == ROOT_PATH ==> w == Status(img, -EISDIR)) &&
      (path != ROOT_PATH && r.ret < 0 ==> w == Status(img, -EIO)) &&
      (path != ROOT_PATH && r.ret >= 0 ==>
        var f := Copied(r, u.fcb);
        (IsDirectory(f.metadata) ==> w == Status(img, -EISDIR)) &&
        (!IsDirectory(f.metadata) && |data| > INT32_MAX ==> w == Status(img, -EINVAL)) &&
        (w.ret == -EINVAL || w.ret == -ENOSPC || w.ret == -EIO || w.ret == -EISDIR || w.ret == |data|) &&
        (|data| > 0 && w.ret == |data| ==>
          !IsDirectory(f.metadata) &&
          exists n: Fcb ::
            var end := (offset + |data|) % TWO_32;
            n.size == (if end > f.size then end else f.size) &&
            n.(firstCluster := f.firstCluster, size := f.size) == f &&
            Store.Fits(w.img, r.ret, FCB_SIZE) && Store.Read(w.img, r.ret, FCB_SIZE) == EncodeFcb(n)))
  {
    FindFcbFound(img, g, path, u.find);
    var r := FindFcb(img, g, path, u.find);
    if path != ROOT_PATH && r.ret >= 0 {
      var f := Copied(r, u.fcb);
      if !IsDirectory(f.metadata) && |data| <= INT32_MAX {
        var o := FileData.WriteFile(img, g, f, r.ret, data, offset);
        FileData.WriteFileOutcome(img, g, f, r.ret, data, offset);
        if |data| > 0 && o.ret == |data| {
          var n := o.fcb;
          assert Store.Read(o.img, r.ret, FCB_SIZE) == EncodeFcb(n);
        }
      }
    }
  }

  function Truncate(img: seq<byte>, g: Geometry, path: seq<byte>, offset: nat, u: Stack): Status
    requires Usable(g)
  {
    var r := FindFcb(img, g, path, u.find);
    if r.ret < 0 then Status(img, -ENOENT)
    else
      var f := Copied(r, u.fcb);
      if IsDirectory(f.metadata) then Status(img, -EISDIR)
      else
        var t := FileData.Truncate(img, g, f, r.ret, offset);
        Status(t.img, t.ret)
  }

  /** truncate fails with `-ENOENT` or `-EISDIR` without touching the image.
      On a regular file a shrinking truncate (or one to the same size) only
      adjusts the chain and never rewrites the entry; a growing one that
      succeeds leaves the entry, with the new size, at its offset. */
  lemma TruncateSpec(img: seq<byte>, g: Geometry, path: seq<byte>, offset: nat, u: Stack)
    requires Usable(g)
    ensures var t := Truncate(img, g, path, offset, u);
      var r := FindFcb(img, g, path, u.find);
      (r.ret < 0 ==> t == Status(img, -ENOENT)) &&
      (r.ret >= 0 && IsDirectory(Copied(r, u.fcb).metadata) ==> t == Status(img, -EISDIR)) &&
      (r.ret >= 0 && !IsDirectory(Copied(r, u.fcb).metadata) ==>
        var f := Copied(r, u.fcb);
        var a := Adjust(img, g, f, FileData.TruncateClusters(g, offset));
        (a.ret < 0 ==> t == Status(a.img, a.ret)) &&
        (a.ret >= 0 && offset % TWO_32 <= f.size ==> t == Status(a.img, 0)) &&
        (a.ret >= 0 && f.size < offset % TWO_32 < f.size + TWO_32 - ENOSPC && t.ret == 0 ==>
          exists n: Fcb ::
            n.size == offset % TWO_32 && n.(firstCluster := f.firstCluster) == f.(size := offset % TWO_32) &&
            Store.Fits(t.img, r.ret, FCB_SIZE) && Store.Read(t.img, r.ret, FCB_SIZE) == EncodeFcb(n)))
  {
    FindFcbFound(img, g, path, u.find);
    var r := FindFcb(img, g, path, u.find);
    if r.ret >= 0 && !IsDirectory(Copied(r, u.fcb).metadata) {
      var f := Copied(r, u.fcb);
      FileData.TruncateNoGrowth(img, g, f, r.ret, offset);
      var a := Adjust(img, g, f, FileData.TruncateClusters(g, offset));
      if a.ret >= 0 && f.size < offset % TWO_32 < f.size + TWO_32 - ENOSPC {
        FileData.TruncateGrowth(img, g, f, r.ret, offset);
        var n := FileData.Truncate(img, g, f, r.ret, offset).fcb;
        assert n.size == offset % TWO_32 || FileData.Truncate(img, g, f, r.ret, offset).ret != 0;
      }
    }
  }

  // ---------------------------------------------------------------------
  // fat16_unlink, fat16_rmdir (fat16.c:502-518, 620-640)

  function Unlink(img: seq<byte>, g: Geometry, path: seq<byte>, u: Stack): Status
    requires Usable(g)
  {
    var r := FindFcb(img, g, path, u.find);
    if r.ret < 0 then Status(img, -ENOENT)
    else
      var f := Copied(r, u.fcb);
      if IsVolumeLabel(f.metadata) then Status(img, -ENOENT)
      else if IsDirectory(f.metadata) then Status(img, -EISDIR)
      else RemoveFile(img, g, f, r.ret)
  }

  function Rmdir(img: seq<byte>, g: Geometry, path: seq<byte>, u: Stack): Status
    requires Usable(g)
  {
    var r := FindFcb(img, g, path, u.find);
    if r.ret < 0 then Status(img, -ENOENT)
    else
      var f := Copied(r, u.fcb);
      if IsVolumeLabel(f.metadata) then Status(img, -ENOENT)
      else if !IsDirectory(f.metadata) then Status(img, -ENOTDIR)
      else if DirEmpty(img, g, f) == 0 then Status(img, -ENOTEMPTY)
      else RemoveFile(img, g, f, r.ret)
  }

  /** An entry whose 32 bytes lie before or after the FAT, as every entry
      of the root directory and of the data region does. */
  predicate OutsideFat(g: Geometry, off: int) {
    off + FCB_SIZE <= g.offsetFat || g.offsetFat + g.sizeFat <= off
  }

  /** The entry a successful unlink or rmdir removed: found under the path,
      outside the FAT, written back marked deleted, its first cluster freed
      and every other FAT slot as it was. */
  ghost predicate Removed(img: seq<byte>, g: Geometry, s: Status, off: int, f: Fcb) {
    |s.img| == |img| && Store.Fits(img, off, FCB_SIZE) &&
    Store.Read(s.img, off, FCB_SIZE) == EncodeFcb(Deleted(f)) &&
    (forall d: u16 :: d != f.firstCluster ==> NextCluster(s.img, g, d) == NextCluster(img, g, d)) &&
    (InUse(f.firstCluster) && Addressable(g, f.firstCluster) && SlotFits(img, g, f.firstCluster) ==>
      NextCluster(s.img, g, f.firstCluster) == CLUSTER_FREE)
  }

  /** unlink fails with `-ENOENT` for a path that does not resolve or names
      a volume label and `-EISDIR` for a directory, without touching the
      image; otherwise it is remove_file, which for an entry outside the FAT
      succeeds exactly when the entry lies in the image and then removes it. */
  lemma UnlinkSpec(img: seq<byte>, g: Geometry, path: seq<byte>, u: Stack)
    requires Usable(g)
    ensures var s := Unlink(img, g, path, u);
      var r := FindFcb(img, g, path, u.find);
      (r.ret < 0 ==> s == Status(img, -ENOENT)) &&
      (r.ret >= 0 ==>
        var f := Copied(r, u.fcb);
        (IsVolumeLabel(f.metadata) ==> s == Status(img, -ENOENT)) &&
        (!IsVolumeLabel(f.metadata) && IsDirectory(f.metadata) ==> s == Status(img, -EISDIR)) &&
        (OutsideFat(g, r.ret) ==>
          (s.ret == 0 <==> !IsVolumeLabel(f.metadata) && !IsDirectory(f.metadata) && Store.Fits(img, r.ret, FCB_SIZE)) &&
          (s.ret == 0 ==> Removed(img, g, s, r.ret, f))))
  {
    FindFcbFound(img, g, path, u.find);
    var r := FindFcb(img, g, path, u.find);
    if r.ret >= 0 && OutsideFat(g, r.ret) {
      RemoveFileEffect(img, g, Copied(r, u.fcb), r.ret);
    }
  }

  /** rmdir fails with `-ENOENT` for a path that does not resolve or names a
      volume label, `-ENOTDIR` for a non-directory and `-ENOTEMPTY` exactly
      when is_directory_empty returns 0, that is, when every page can be
      read and a live entry comes before the first end marker; a page that
      cannot be read counts as empty. Otherwise it is remove_file, which
      for an entry outside the FAT succeeds exactly when the entry lies in
      the image and then removes it. */
  lemma RmdirSpec(img: seq<byte>, g: Geometry, path: seq<byte>, u: Stack)
    requires Usable(g)
    ensures var s := Rmdir(img, g, path, u);
      var r := FindFcb(img, g, path, u.find);
      (r.ret < 0 ==> s == Status(img, -ENOENT)) &&
      (r.ret >= 0 ==>
        var f := Copied(r, u.fcb);
        (IsVolumeLabel(f.metadata) ==> s == Status(img, -ENOENT)) &&
        (!IsVolumeLabel(f.metadata) && !IsDirectory(f.metadata) ==> s == Status(img, -ENOTDIR)) &&
        (!IsVolumeLabel(f.metadata) && IsDirectory(f.metadata) ==>
          (s.ret == -ENOTEMPTY <==> DirEmpty(img, g, f) == 0) &&
          (Readable(img, g, f.firstCluster, Bound(g)) ==>
            (s.ret == -ENOTEMPTY <==> LiveBeforeEnd(Listing(img, g, f.firstCluster, Bound(g)))))) &&
        (OutsideFat(g, r.ret) ==>
          (s.ret == 0 <==> !IsVolumeLabel(f.metadata) && IsDirectory(f.metadata) &&
                           DirEmpty(img, g, f) != 0 && Store.Fits(img, r.ret, FCB_SIZE)) &&
          (s.ret == 0 ==> Removed(img, g, s, r.ret, f))))
  {
    FindFcbFound(img, g, path, u.find);
    var r := FindFcb(img, g, path, u.find);
    if r.ret >= 0 {
      var f := Copied(r, u.fcb);
      if OutsideFat(g, r.ret) { RemoveFileEffect(img, g, f, r.ret); }
      if Readable(img, g, f.firstCluster, Bound(g)) { DirEmptySpec(img, g, f); }
    }
  }

  // ---------------------------------------------------------------------
  // The free-slot search of create, mkdir and rename (fat16.c:245-283)

  /** The image, the status and the FindOption record after the search. */
  datatype Slot = Slot(img: seq<byte>, ret: int, opt: FindOption)

  /** get_free_entry over the root directory when the parent is empty, over
      the parent found by find_fcb otherwise; a full sub-directory gets one
      more cluster from file_new_cluster, its entry is written back and the
      slot becomes entry 0 of the new cluster. */
  function FindSlot(img: seq<byte>, g: Geometry, parent: seq<byte>, u: Stack): Slot
    requires Usable(g)
  {
    if parent == [] then
      var w := RootWalk(img, g, Handler(FreeSlot), State(u.opt, []));
      Slot(img, w.ret, w.state.opt)
    else
      var pr := FindFcb(img, g, parent, u.findParent);
      if pr.ret < 0 then Slot(img, pr.ret, u.opt)
      else
        var pf := Copied(pr, u.parentFcb);
        var w := SubWalk(img, g, pf, Handler(FreeSlot), State(u.opt, []));
        if w.ret < 0 || w.state.opt.pos >= 0 then Slot(img, w.ret, w.state.opt)
        else
          var grown := FileNewCluster(img, g, pf, 1);
          var put := PutEntry(grown.img, pr.ret, grown.fcb);
          if put.ret < 0 then Slot(put.img, put.ret, w.state.opt)
          else Slot(put.img, 0, w.state.opt.(pos := ClusterOffset(g, grown.r), index := 0))
  }

  /** The search in the root directory changes nothing; it fails only with
      `-ENODATA` and otherwise finds a free slot, reports none with
      `pos = -1`, or (the `dir[i]` probe) leaves the record uninitialised. */
  lemma FindSlotRoot(img: seq<byte>, g: Geometry, u: Stack)
    requires Usable(g)
    ensures var sl := FindSlot(img, g, [], u);
      sl.img == img && (sl.ret == 0 || sl.ret == -ENODATA) &&
      (sl.ret < 0 ==> sl.opt == u.opt) &&
      (sl.opt == u.opt || sl.opt == u.opt.(pos := -1) || FreeAt(img, sl.opt))
  {
    FreeInRoot(img, g, State(u.opt, []));
  }

  /** The search in a sub-directory: a parent that does not resolve passes
      find_fcb's status on and one that is not a directory gives
      `-ENOTDIR`, both with nothing changed. A free slot found in the
      parent's chain leaves the image as it was. When every page is full,
      the parent gets one more cluster, its entry is written back at its
      offset, and (unless that write falls outside the image) the slot
      becomes entry 0 of the cluster file_new_cluster returned. */
  lemma FindSlotSub(img: seq<byte>, g: Geometry, parent: seq<byte>, u: Stack)
    requires Usable(g) && parent != []
    ensures var sl := FindSlot(img, g, parent, u);
      var pr := FindFcb(img, g, parent, u.findParent);
      (pr.ret < 0 ==> sl == Slot(img, pr.ret, u.opt)) &&
      (pr.ret >= 0 ==>
        var pf := Copied(pr, u.parentFcb);
        var w := SubWalk(img, g, pf, Handler(FreeSlot), State(u.opt, []));
        var grown := FileNewCluster(img, g, pf, 1);
        (!IsDirectory(pf.metadata) ==> sl == Slot(img, -ENOTDIR, u.opt)) &&
        (w.ret < 0 ==> sl == Slot(img, w.ret, u.opt)) &&
        (w.ret == 0 && w.state.opt.pos >= 0 ==> sl.img == img && sl.ret == 0 && FreeAt(img, sl.opt)) &&
        (w.ret == 0 && w.state.opt.pos < 0 ==>
          (sl.ret == 0 || sl.ret == -EIO) &&
          (sl.ret == 0 <==> Store.Fits(grown.img, pr.ret, FCB_SIZE)) &&
          (sl.ret == 0 ==>
            sl.opt == u.opt.(pos := ClusterOffset(g, grown.r), index := 0) &&
            Store.Read(sl.img, pr.ret, FCB_SIZE) == EncodeFcb(grown.fcb))))
  {
    FindFcbFound(img, g, parent, u.findParent);
    var pr := FindFcb(img, g, parent, u.findParent);
    if pr.ret >= 0 {
      var pf := Copied(pr, u.parentFcb);
      FreeInSub(img, g, pf, State(u.opt, []));
      var w := SubWalk(img, g, pf, Handler(FreeSlot), State(u.opt, []));
      if w.ret == 0 && w.state.opt.pos < 0 {
        var grown := FileNewCluster(img, g, pf, 1);
        if Store.Fits(grown.img, pr.ret, FCB_SIZE) {
          PutEntryReadsBack(grown.img, pr.ret, grown.fcb);
        }
      }
    }
  }

  // ---------------------------------------------------------------------
  // fat16_create, fat16_mkdir (fat16.c:216-311, 541-618)

  function Create(img: seq<byte>, g: Geometry, path: seq<byte>, u: Stack): Status
    requires Usable(g)
  {
    if path == ROOT_PATH then Status(img, -EINVAL)
    else if FindFcb(img, g, path, u.find).ret >= 0 then Status(img, -EEXIST)
    else
      var sp := SplitLast(path);
      NewFile(FindSlot(img, g, sp.parent, u), sp.leaf)
  }

  /** The rest of create once the slot search is done: its error, `-ENFILE`
      when no slot was found, `-EINVAL` for a name longer than 8 + 3, and
      otherwise the new entry written into the slot. */
  function NewFile(sl: Slot, leaf: seq<byte>): Status {
    if sl.ret < 0 then Status(sl.img, sl.ret)
    else if sl.opt.pos < 0 then Status(sl.img, -ENFILE)
    else
      var parts := SplitExt(leaf);
      if !ShortName(parts) then Status(sl.img, -EINVAL)
      else PutEntry(sl.img, SlotOffset(sl), NewEntry(parts.base, parts.ext, 0))
  }

  /** Where a slot's entry lies. */
  function SlotOffset(sl: Slot): int {
    sl.opt.pos + FCB_SIZE * sl.opt.index
  }

  /** create refuses "/" with `-EINVAL` and a path that resolves with
      `-EEXIST`, touching nothing, and otherwise searches the parent of the
      last component for a slot. A create that succeeds has written the new
      entry into that slot; in the root directory the slot was free, or is
      the place the uninitialised record named when the walk stopped on
      the probe without any callback having written it. */
  lemma CreateSpec(img: seq<byte>, g: Geometry, path: seq<byte>, u: Stack)
    requires Usable(g)
    ensures var c := Create(img, g, path, u);
      var exists_ := FindFcb(img, g, path, u.find).ret >= 0;
      var sp := SplitLast(path);
      var sl := FindSlot(img, g, sp.parent, u);
      var parts := SplitExt(sp.leaf);
      (path == ROOT_PATH ==> c == Status(img, -EINVAL)) &&
      (path != ROOT_PATH && exists_ ==> c == Status(img, -EEXIST)) &&
      (path != ROOT_PATH && !exists_ ==> c == NewFile(sl, sp.leaf)) &&
      (c.ret == 0 ==>
        path != ROOT_PATH && !exists_ && ShortName(parts) &&
        Store.Read(c.img, SlotOffset(sl), FCB_SIZE) == EncodeFcb(NewEntry(parts.base, parts.ext, 0)) &&
        (sp.parent == [] ==> sl.img == img && (FreeAt(img, sl.opt) || sl.opt == u.opt)))
  {
    var sp := SplitLast(path);
    NewFileSpec(FindSlot(img, g, sp.parent, u), sp.leaf);
    if sp.parent == [] { FindSlotRoot(img, g, u); }
  }

  /** After the slot search: the name length is checked only after the
      search, so a search that failed or found nothing wins over a name too
      long. A create that succeeds leaves, in the slot found, a zeroed entry
      with the space-padded base and extension of the leaf and first
      cluster END, which get_filename reads back as the leaf (less a
      trailing dot) when the leaf holds no space or NUL. */
  lemma NewFileSpec(sl: Slot, leaf: seq<byte>)
    ensures var c := NewFile(sl, leaf);
      var parts := SplitExt(leaf);
      (sl.ret < 0 ==> c == Status(sl.img, sl.ret)) &&
      (sl.ret >= 0 && sl.opt.pos < 0 ==> c == Status(sl.img, -ENFILE)) &&
      (sl.ret >= 0 && sl.opt.pos >= 0 && !ShortName(parts) ==> c == Status(sl.img, -EINVAL)) &&
      (sl.ret >= 0 && sl.opt.pos >= 0 && ShortName(parts) ==>
        (c.ret == 0 <==> Store.Fits(sl.img, SlotOffset(sl), FCB_SIZE))) &&
      (c.ret == 0 ==>
        sl.ret >= 0 && sl.opt.pos >= 0 && ShortName(parts) && |c.img| == |sl.img| &&
        Store.Read(c.img, SlotOffset(sl), FCB_SIZE) == EncodeFcb(NewEntry(parts.base, parts.ext, 0)) &&
        Dotted(parts.base, parts.ext) ==
          (if parts.dotted && parts.ext == [] then leaf[..|leaf| - 1] else leaf) &&
        (NoByte(leaf, SPACE) && NoByte(leaf, NUL) ==>
          SameIgnoringCase(CStr(Fullname(NewEntry(parts.base, parts.ext, 0))), Dotted(parts.base, parts.ext))))
  {
    var parts := SplitExt(leaf);
    var c := NewFile(sl, leaf);
    if c.ret == 0 {
      PutEntryReadsBack(sl.img, SlotOffset(sl), NewEntry(parts.base, parts.ext, 0));
      SplitExtJoins(leaf);
      if NoByte(leaf, SPACE) && NoByte(leaf, NUL) {
        SplitExtParts(leaf);
        NewEntryFound(parts.base, parts.ext, 0);
      }
    }
  }

  /** The base and extension of a name hold none of the bytes the name
      does not hold. */
  lemma SplitExtParts(name: seq<byte>)
    ensures forall c: byte :: NoByte(name, c) ==> NoByte(SplitExt(name).base, c) && NoByte(SplitExt(name).ext, c)
  {
    var n := SplitExt(name);
    var k := LastIndexOf(name, DOT);
    forall c: byte | NoByte(name, c)
      ensures NoByte(n.base, c) && NoByte(n.ext, c)
    {
      if k >= 0 {
        assert forall i :: 0 <= i < |n.base| ==> n.base[i] == name[i];
        assert forall i :: 0 <= i < |n.ext| ==> n.ext[i] == name[k + 1 + i];
      }
    }
  }

  function Mkdir(img: seq<byte>, g: Geometry, path: seq<byte>, u: Stack): Status
    requires Usable(g)
  {
    if path == ROOT_PATH then Status(img, -EINVAL)
    else if FindFcb(img, g, path, u.find).ret >= 0 then Status(img, -EEXIST)
    else
      var sp := SplitLast(path);
      if !IsFilenameAvailable(sp.leaf) then Status(img, -EINVAL)
      else NewDir(FindSlot(img, g, sp.parent, u), sp.leaf)
  }

  /** The rest of mkdir once the name has been checked and the slot search
      is done. */
  function NewDir(sl: Slot, leaf: seq<byte>): Status
    requires IsFilenameAvailable(leaf)
  {
    if sl.ret < 0 then Status(sl.img, sl.ret)
    else if sl.opt.pos < 0 then Status(sl.img, -ENFILE)
    else PutEntry(sl.img, SlotOffset(sl), NewEntry(leaf, [], META_DIRECTORY))
  }

  /** mkdir refuses "/" with `-EINVAL`, a path that resolves with `-EEXIST`
      and, before any search, a last component that is not 1 to 8 letters,
      digits or underscores with `-EINVAL`; all three touch nothing. A mkdir
      that succeeds has written the directory entry into the slot the
      search found, which in the root directory was free or is the place
      the uninitialised record named. */
  lemma MkdirSpec(img: seq<byte>, g: Geometry, path: seq<byte>, u: Stack)
    requires Usable(g)
    ensures var m := Mkdir(img, g, path, u);
      var exists_ := FindFcb(img, g, path, u.find).ret >= 0;
      var sp := SplitLast(path);
      var sl := FindSlot(img, g, sp.parent, u);
      (path == ROOT_PATH ==> m == Status(img, -EINVAL)) &&
      (path != ROOT_PATH && exists_ ==> m == Status(img, -EEXIST)) &&
      (path != ROOT_PATH && !exists_ && !IsFilenameAvailable(sp.leaf) ==> m == Status(img, -EINVAL)) &&
      (path != ROOT_PATH && !exists_ && IsFilenameAvailable(sp.leaf) ==> m == NewDir(sl, sp.leaf)) &&
      (m.ret == 0 ==>
        path != ROOT_PATH && !exists_ && IsFilenameAvailable(sp.leaf) &&
        Store.Read(m.img, SlotOffset(sl), FCB_SIZE) == EncodeFcb(NewEntry(sp.leaf, [], META_DIRECTORY)) &&
        (sp.parent == [] ==> sl.img == img && (FreeAt(img, sl.opt) || sl.opt == u.opt)))
  {
    var sp := SplitLast(path);
    if IsFilenameAvailable(sp.leaf) { NewDirSpec(FindSlot(img, g, sp.parent, u), sp.leaf); }
    if sp.parent == [] { FindSlotRoot(img, g, u); }
  }

  /** A mkdir that succeeds leaves in the slot found a directory entry with
      size 0, first cluster END and a blank extension, whose get_filename
      form is the leaf itself; a failed or empty search is passed on. */
  lemma NewDirSpec(sl: Slot, leaf: seq<byte>)
    requires IsFilenameAvailable(leaf)
    ensures var m := NewDir(sl, leaf);
      var e := NewEntry(leaf, [], META_DIRECTORY);
      (sl.ret < 0 ==> m == Status(sl.img, sl.ret)) &&
      (sl.ret >= 0 && sl.opt.pos < 0 ==> m == Status(sl.img, -ENFILE)) &&
      (sl.ret >= 0 && sl.opt.pos >= 0 ==> (m.ret == 0 <==> Store.Fits(sl.img, SlotOffset(sl), FCB_SIZE))) &&
      (m.ret == 0 ==>
        sl.ret >= 0 && sl.opt.pos >= 0 && |m.img| == |sl.img| &&
        Store.Read(m.img, SlotOffset(sl), FCB_SIZE) == EncodeFcb(e) &&
        IsDirectory(e.metadata) && e.size == 0 && e.firstCluster == CLUSTER_END &&
        Fullname(e) == leaf)
  {
    var m := NewDir(sl, leaf);
    if m.ret == 0 {
      PutEntryReadsBack(sl.img, SlotOffset(sl), NewEntry(leaf, [], META_DIRECTORY));
    }
    AvailableNameReadsBack(leaf, META_DIRECTORY);
    assert IsDirectory(META_DIRECTORY);
  }

  // ---------------------------------------------------------------------
  // fat16_rename (fat16.c:340-452)

  function Rename(img: seq<byte>, g: Geometry, from: seq<byte>, to: seq<byte>, u: Stack): Status
    requires Usable(g)
  {
    var r := FindFcb(img, g, from, u.find);
    var nr := FindFcb(img, g, to, u.findTo);
    var file := Copied(r, u.fcb);
    if nr.ret > 0 then
      var target := Copied(nr, u.fcbTo);
      if IsDirectory(file.metadata) && DirEmpty(img, g, target) == 0 then Status(img, -ENOTEMPTY)
      else
        var moved := file.(filename := target.filename, extname := target.extname);
        PutEntries(Release(img, g, target.firstCluster), nr.ret, moved, r.ret, Deleted(file))
    else
      var sp := SplitLast(to);
      var sl := FindSlot(img, g, sp.parent, u);
      if sl.ret < 0 then Status(sl.img, sl.ret)
      else if sl.opt.pos < 0 then Status(sl.img, -ENFILE)
      else
        var parts := SplitExt(sp.leaf);
        if !ShortName(parts) then Status(sl.img, -EINVAL)
        else
          PutEntries(sl.img, sl.opt.pos + FCB_SIZE * sl.opt.index, Renamed(file, parts.base, parts.ext),
                     r.ret, Deleted(file))
  }

  /** rename onto a destination that resolves (to a positive offset): a
      directory moved onto a non-empty directory gives `-ENOTEMPTY` and
      changes nothing; otherwise the destination's chain head is released,
      the source entry is copied over the destination under the
      destination's 8 + 3 name bytes, then the source is marked deleted.
      The source is never checked: when it does not resolve the second write
      falls outside the image and the call ends in `-EIO` after the
      destination has been overwritten. */
  lemma RenameOntoExisting(img: seq<byte>, g: Geometry, from: seq<byte>, to: seq<byte>, u: Stack)
    requires Usable(g)
    requires FindFcb(img, g, to, u.findTo).ret > 0
    ensures var s := Rename(img, g, from, to, u);
      var r := FindFcb(img, g, from, u.find);
      var nr := FindFcb(img, g, to, u.findTo);
      var file := Copied(r, u.fcb);
      var target := Copied(nr, u.fcbTo);
      var moved := file.(filename := target.filename, extname := target.extname);
      var img1 := Release(img, g, target.firstCluster);
      (IsDirectory(file.metadata) && DirEmpty(img, g, target) == 0 <==> s.ret == -ENOTEMPTY) &&
      (s.ret == -ENOTEMPTY ==> s.img == img) &&
      (s.ret != -ENOTEMPTY ==>
        (s.ret == 0 || s.ret == -EIO) &&
        (s.ret == 0 <==> Store.Fits(img1, nr.ret, FCB_SIZE) && Store.Fits(img1, r.ret, FCB_SIZE)) &&
        (s.ret == 0 ==> Store.Read(s.img, r.ret, FCB_SIZE) == EncodeFcb(Deleted(file))) &&
        (s.ret == 0 && (nr.ret + FCB_SIZE <= r.ret || r.ret + FCB_SIZE <= nr.ret) ==>
          Store.Read(s.img, nr.ret, FCB_SIZE) == EncodeFcb(moved)) &&
        (r.ret < 0 ==> s.ret == -EIO))
  {
    FindFcbFound(img, g, to, u.findTo);
    var r := FindFcb(img, g, from, u.find);
    var nr := FindFcb(img, g, to, u.findTo);
    var file := Copied(r, u.fcb);
    var target := Copied(nr, u.fcbTo);
    var moved := file.(filename := target.filename, extname := target.extname);
    var img1 := Release(img, g, target.firstCluster);
    PutEntriesReadBack(img1, nr.ret, moved, r.ret, Deleted(file));
  }

  /** rename to a destination that does not resolve: after the slot search
      of create (and its errors), a name longer than 8 + 3 gives `-EINVAL`;
      otherwise the source entry, renamed, goes into the free slot, and then
      the source is marked deleted. */
  lemma RenameToNew(img: seq<byte>, g: Geometry, from: seq<byte>, to: seq<byte>, u: Stack)
    requires Usable(g)
    requires FindFcb(img, g, to, u.findTo).ret <= 0
    ensures var s := Rename(img, g, from, to, u);
      var r := FindFcb(img, g, from, u.find);
      var file := Copied(r, u.fcb);
      var sp := SplitLast(to);
      var sl := FindSlot(img, g, sp.parent, u);
      var parts := SplitExt(sp.leaf);
      var off := sl.opt.pos + FCB_SIZE * sl.opt.index;
      (sl.ret < 0 ==> s == Status(sl.img, sl.ret)) &&
      (sl.ret >= 0 && sl.opt.pos < 0 ==> s == Status(sl.img, -ENFILE)) &&
      (sl.ret >= 0 && sl.opt.pos >= 0 && !ShortName(parts) ==> s == Status(sl.img, -EINVAL)) &&
      (s.ret == 0 ==>
        sl.ret >= 0 && sl.opt.pos >= 0 && ShortName(parts) &&
        Store.Read(s.img, r.ret, FCB_SIZE) == EncodeFcb(Deleted(file)) &&
        (off + FCB_SIZE <= r.ret || r.ret + FCB_SIZE <= off ==>
          Store.Read(s.img, off, FCB_SIZE) == EncodeFcb(Renamed(file, parts.base, parts.ext))))
  {
    var r := FindFcb(img, g, from, u.find);
    var file := Copied(r, u.fcb);
    var sp := SplitLast(to);
    var sl := FindSlot(img, g, sp.parent, u);
    var parts := SplitExt(sp.leaf);
    if sl.ret >= 0 && sl.opt.pos >= 0 && ShortName(parts) {
      PutEntriesReadBack(sl.img, sl.opt.pos + FCB_SIZE * sl.opt.index, Renamed(file, parts.base, parts.ext),
                         r.ret, Deleted(file));
    }
  }
}
