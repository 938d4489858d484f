/** The directory code of utils.c on the volume's byte array: get_filename
    into a character buffer, the two walkers with their page and entry
    loops, find_fcb's loop over the path, is_directory_empty and
    remove_file. Each method computes the function of the same name in
    Directory (or Names). */
module DirectoryImpl {
  import opened Layout
  import opened Geometry
  import opened Wrappers
  import Store
  import opened Fat
  import opened Errors
  import opened Names
  import Directory
  import opened Volume
  import FatImpl

  // ---------------------------------------------------------------------
  // get_filename (utils.c:58-83)

  /** get_filename's callers pass a buffer of MAX_FULLNAME (12) bytes, but a
      full 8.3 name puts its NUL at index 12: a byte past the buffer. */
  lemma FullNameOverflows()
    ensures var f := FcbRecord([0x52, 0x45, 0x41, 0x44, 0x4D, 0x45, 0x31, 0x32], [0x54, 0x58, 0x54], 0,
                               seq(10, _ => 0), 0, 0, CLUSTER_END, 0);
      Terminator(f) == MAX_FULLNAME
  {
    var f := FcbRecord([0x52, 0x45, 0x41, 0x44, 0x4D, 0x45, 0x31, 0x32], [0x54, 0x58, 0x54], 0,
                       seq(10, _ => 0), 0, 0, CLUSTER_END, 0);
    FullnameShape(f);
    assert NoByte(f.filename, SPACE) && NoByte(f.extname, SPACE);
  }

  /** get_filename(fcb, filename) into a buffer one byte longer than
      MAX_FULLNAME, which every index it writes fits: the buffer holds the
      name followed by a NUL, so as a C string it is the name. */
  method GetFilename(f: Fcb) returns (name: array<byte>)
    ensures fresh(name) && name.Length == MAX_FULLNAME + 1
    ensures |Fullname(f)| < name.Length
    ensures name[..|Fullname(f)|] == Fullname(f) && name[|Fullname(f)|] == NUL
  {
    name := new byte[MAX_FULLNAME + 1];
    forall k | 0 <= k < MAX_FILENAME {
      name[k] := f.filename[k];
    }
    assert name[..MAX_FILENAME] == f.filename;
    var i := SpaceIndex(name, 0, MAX_FILENAME);
    name[i] := DOT;
    forall k | 0 <= k < MAX_EXTNAME {
      name[i + 1 + k] := f.extname[k];
    }
    assert name[..i] == f.filename[..i];
    assert name[i + 1..i + 1 + MAX_EXTNAME] == f.extname;
    var j := SpaceIndex(name, i + 1, MAX_EXTNAME);
    ghost var before := name[..];
    if j == 0 {
      name[i] := NUL;
    }
    name[i + 1 + j] := NUL;
    Assembled(before, name[..], f, i, j);
  }

  /** The scan for the first space in `name[from..from + n)`, as an offset
      from `from`, or `n` when there is none. */
  method SpaceIndex(name: array<byte>, from: nat, n: nat) returns (i: nat)
    requires from + n <= name.Length
    ensures i == IndexOf(name[from..from + n], SPACE)
  {
    ghost var field := name[from..from + n];
    i := 0;
    while i < n && name[from + i] != SPACE
      invariant i <= n
      invariant forall k :: 0 <= k < i ==> field[k] != SPACE
    {
      i := i + 1;
    }
    IndexOfIs(field, SPACE, i);
  }

  /** The buffer before the terminating writes holds the name part up to
      `i`, the dot at `i` and the extension after it; the final writes
      leave the full name followed by the NUL. */
  lemma Assembled(before: seq<byte>, after: seq<byte>, f: Fcb, i: nat, j: nat)
    requires |before| == |after| == MAX_FULLNAME + 1
    requires i == IndexOf(f.filename, SPACE) && j == IndexOf(f.extname, SPACE)
    requires before[..i] == f.filename[..i] && before[i] == DOT
    requires before[i + 1..i + 1 + MAX_EXTNAME] == f.extname
    requires after == (if j == 0 then before[i := NUL] else before)[i + 1 + j := NUL]
    ensures |Fullname(f)| < |after|
    ensures after[..|Fullname(f)|] == Fullname(f) && after[|Fullname(f)|] == NUL
  {
    if j == 0 {
      assert after[..i] == before[..i];
    } else {
      assert after[..i + 1 + j] == before[..i] + [DOT] + before[i + 1..i + 1 + j];
      assert before[i + 1..i + 1 + j] == f.extname[..j];
    }
  }

  // ---------------------------------------------------------------------
  // The walkers (utils.c:109-186)

  /** The entry loop over `dir[0..n)` of a page read at `pos`. */
  method ScanEntries(cb: Directory.Callback, s: Directory.State, dir: seq<Fcb>, pos: int, n: nat,
                     probe: Option<nat>) returns (sc: Directory.Scan)
    requires n <= |dir|
    ensures sc == Directory.ScanPage(cb, s, dir, pos, 0, n, probe)
  {
    var t := s;
    var j := 0;
    while j < n
      invariant j <= n
      invariant Directory.ScanPage(cb, t, dir, pos, j, n, probe) == Directory.ScanPage(cb, s, dir, pos, 0, n, probe)
      decreases n - j
    {
      var step := cb(t, pos, j, Some(dir[j]));
      var k := if probe.Some? then probe.value else j;
      if step.stop || Directory.EndAt(dir, k) {
        return Directory.Scan(true, step.state);
      }
      t := step.state;
      j := j + 1;
    }
    return Directory.Scan(false, t);
  }

  /** The page io_read fetches from `pos` into the `dir` buffer, or None
      when the read comes back short. */
  method ReadPage(v: Volume, pos: int) returns (dir: Option<seq<Fcb>>)
    requires Usable(v.geo)
    ensures dir.Some? <==> Store.Fits(v.image[..], pos, v.geo.sizeCluster)
    ensures dir.Some? ==> dir.value == Directory.Buffer(v.image[..], v.geo, pos)
  {
    var count, _ := v.IoRead(pos, v.geo.sizeCluster);
    if count != v.geo.sizeCluster {
      return None;
    }
    return Some(Directory.Buffer(v.image[..], v.geo, pos));
  }

  /** traverse_root_dir(opt, callback). */
  method TraverseRootDir(v: Volume, cb: Directory.Callback, s: Directory.State) returns (w: Directory.Walked)
    requires Usable(v.geo)
    ensures w == Directory.RootWalk(v.image[..], v.geo, cb, s)
  {
    ghost var img := v.image[..];
    var g := v.geo;
    var entries: nat := g.rootEntries;
    var pages := Directory.RootPages(g);
    var pos: int := g.offsetRoot;
    var st := s;
    var i := 0;
    while i < pages
      invariant i <= pages
      invariant Directory.RootLoop(img, g, cb, st, i, pages, entries, pos) == Directory.RootWalk(img, g, cb, s)
      decreases pages - i
    {
      var dir := ReadPage(v, pos);
      if dir.None? {
        return Directory.Walked(-ENODATA, st);
      }
      var sc := ScanEntries(cb, st, dir.value, pos, Directory.Min(g.fcbPerCluster, entries), Some(i));
      if sc.stopped {
        return Directory.Walked(0, sc.state);
      }
      st := sc.state;
      entries := (entries - g.fcbPerCluster) % TWO_64;
      pos := pos + g.sizeCluster;
      i := i + 1;
    }
    var last := cb(st, -1, -1, None);
    return Directory.Walked(0, last.state);
  }

  /** traverse_sub_dir(fcb, opt, callback). */
  method TraverseSubDir(v: Volume, fcb: Fcb, cb: Directory.Callback, s: Directory.State)
    returns (w: Directory.Walked)
    requires Usable(v.geo)
    ensures w == Directory.SubWalk(v.image[..], v.geo, fcb, cb, s)
  {
    if !IsDirectory(fcb.metadata) {
      return Directory.Walked(-ENOTDIR, s);
    }
    ghost var img := v.image[..];
    var g := v.geo;
    var cur := fcb.firstCluster;
    var fuel := Bound(g);
    var st := s;
    while cur != CLUSTER_END && fuel > 0
      invariant Directory.SubLoop(img, g, cb, st, cur, fuel) == Directory.SubWalk(img, g, fcb, cb, s)
      decreases fuel
    {
      var pos := ClusterOffset(g, cur);
      if pos == -1 {
        return Directory.Walked(-ESPIPE, st);
      }
      var dir := ReadPage(v, pos);
      if dir.None? {
        return Directory.Walked(-ENODATA, st);
      }
      var sc := ScanEntries(cb, st, dir.value, pos, g.fcbPerCluster, None);
      if sc.stopped {
        return Directory.Walked(0, sc.state);
      }
      st := sc.state;
      cur := FatImpl.NextCluster(v, cur);
      fuel := fuel - 1;
    }
    var last := cb(st, -1, -1, None);
    return Directory.Walked(0, last.state);
  }

  // ---------------------------------------------------------------------
  // find_fcb (utils.c:8-56)

  /** Once the loop has broken, the remaining segments change nothing. */
  lemma {:induction false} ResolveStopped(img: seq<byte>, g: Geometry, segs: seq<seq<byte>>, l: Directory.Look, root: bool)
    requires Usable(g) && l.stopped
    ensures Directory.Resolve(img, g, segs, l, root) == l
    decreases |segs|
  {
    if segs != [] {
      ResolveStopped(img, g, segs[1..], l, false);
    }
  }

  /** find_fcb(path, ret): the offset found and what it copies into `*ret`. */
  method FindFcb(v: Volume, path: seq<byte>, junk: Directory.FindOption) returns (r: Directory.Found)
    requires Usable(v.geo)
    ensures r == Directory.FindFcb(v.image[..], v.geo, path, junk)
  {
    ghost var img := v.image[..];
    var segs := Segments(path);
    var result := -1;
    var opt := junk;
    var found := false;
    var k := 0;
    while k < |segs|
      invariant k <= |segs|
      invariant Directory.Resolve(img, v.geo, segs[k..], Directory.Look(result, opt, found, false), k == 0) ==
                Directory.Resolve(img, v.geo, segs, Directory.Look(-1, junk, false, false), true)
      decreases |segs| - k
    {
      assert segs[k..][0] == segs[k] && segs[k..][1..] == segs[k + 1..];
      var s := Directory.State(opt, []);
      var w;
      if k == 0 {
        w := TraverseRootDir(v, Directory.Handler(Directory.Find(segs[k])), s);
      } else {
        w := TraverseSubDir(v, opt.fcb, Directory.Handler(Directory.Find(segs[k])), s);
      }
      result, opt := w.ret, w.state.opt;
      if result < 0 || opt.index < 0 {
        ResolveStopped(img, v.geo, segs[k + 1..], Directory.Look(result, opt, found, true), false);
        break;
      }
      found := true;
      k := k + 1;
    }
    var ret := if result >= 0 && opt.index >= 0 then opt.pos + FCB_SIZE * opt.index else -ENOENT;
    return Directory.Found(ret, if found then Some(opt.fcb) else None);
  }

  // ---------------------------------------------------------------------
  // is_directory_empty (utils.c:596-632), remove_file (utils.c:405-413)

  /** The entry loop of is_directory_empty over one page. */
  method ScanForLive(dir: seq<Fcb>) returns (verdict: Directory.Verdict)
    ensures verdict == Directory.EmptyScan(dir)
  {
    var i := 0;
    while i < |dir|
      invariant i <= |dir|
      invariant Directory.EmptyScan(dir[i..]) == Directory.EmptyScan(dir)
    {
      assert dir[i..][0] == dir[i] && dir[i..][1..] == dir[i + 1..];
      if Directory.IsEntryEnd(dir[i]) {
        return Directory.SawEnd;
      }
      if dir[i].filename[0] != DOT && Directory.IsEntryExists(dir[i]) {
        return Directory.SawLive;
      }
      i := i + 1;
    }
    return Directory.SawNeither;
  }

  /** is_directory_empty(file). */
  method IsDirectoryEmpty(v: Volume, file: Fcb) returns (r: int)
    requires Usable(v.geo)
    ensures r == Directory.DirEmpty(v.image[..], v.geo, file)
  {
    ghost var img := v.image[..];
    var g := v.geo;
    var entries := g.sizeCluster / FCB_SIZE;
    var cur := file.firstCluster;
    var fuel := Bound(g);
    var stop := false;
    while InUse(cur) && !stop && fuel > 0
      invariant !stop ==> Directory.EmptyLoop(img, g, cur, fuel) == Directory.DirEmpty(img, g, file)
      invariant stop ==> Directory.DirEmpty(img, g, file) == 1
      decreases fuel
    {
      var offset := ClusterOffset(g, cur);
      var count, _ := v.IoRead(offset, g.sizeCluster);
      if count != g.sizeCluster {
        return -EIO;
      }
      var verdict := ScanForLive(Directory.Page(v.image[..], offset, 0, entries));
      if verdict == Directory.SawLive {
        return 0;
      }
      stop := verdict == Directory.SawEnd;
      cur := FatImpl.NextCluster(v, cur);
      fuel := fuel - 1;
    }
    return 1;
  }

  /** remove_file(file, offset_fcb): release the chain head, mark the
      entry deleted and write it back. */
  method RemoveFile(v: Volume, file: Fcb, offset: int) returns (ret: int)
    modifies v.image
    ensures var s := Directory.RemoveFile(old(v.image[..]), v.geo, file, offset);
      v.image[..] == s.img && ret == s.ret
  {
    FatImpl.ReleaseCluster(v, file.firstCluster);
    var deleted := Directory.Deleted(file);
    var count := v.IoWrite(offset, EncodeFcb(deleted));
    if count != FCB_SIZE {
      return -EIO;
    }
    return 0;
  }
}
