/** The file operations of fat16.c on the mounted volume. Each method runs
    the operation's steps through the methods of FatImpl, DirectoryImpl and
    FileDataImpl and computes the function of the same name in Fs, whose
    lemmas state what the operation promises. */
module FsImpl {
  import opened Layout
  import opened Geometry
  import opened Wrappers
  import Store
  import opened Fat
  import opened Errors
  import opened Names
  import opened Directory
  import FileData
  import Fs
  import opened Volume
  import FatImpl
  import DirectoryImpl
  import FileDataImpl

  /** io_write of one entry at `off`, `-EIO` on a short count. */
  method PutEntry(v: Volume, off: int, f: Fcb) returns (ret: int)
    modifies v.image
    ensures var s := Fs.PutEntry(old(v.image[..]), off, f);
      v.image[..] == s.img && ret == s.ret
  {
    var count := v.IoWrite(off, EncodeFcb(f));
    if count != FCB_SIZE {
      return -EIO;
    }
    return 0;
  }

  /** fat16_getattr(path, st). */
  method Getattr(v: Volume, path: seq<byte>, u: Fs.Stack) returns (st: Fs.Stat)
    requires Usable(v.geo)
    ensures st == Fs.Getattr(v.image[..], v.geo, path, u)
  {
    if path == Fs.ROOT_PATH {
      return Fs.Stat(0, Some(Fs.Attr(Fs.DIR_MODE, 2, None)));
    }
    var r := DirectoryImpl.FindFcb(v, path, u.find);
    if r.ret < 0 {
      return Fs.Stat(r.ret, None);
    }
    var f := Fs.Copied(r, u.fcb);
    if IsVolumeLabel(f.metadata) {
      return Fs.Stat(-ENOENT, None);
    }
    if IsDirectory(f.metadata) {
      return Fs.Stat(0, Some(Fs.Attr(Fs.DIR_MODE, 2, None)));
    }
    return Fs.Stat(0, Some(Fs.Attr(Fs.FILE_MODE, 1, Some(f.size))));
  }

  /** fat16_read(path, buf, size, offset). */
  method Read(v: Volume, path: seq<byte>, offset: nat, size: nat, u: Fs.Stack) returns (r: FileData.Got)
    requires Usable(v.geo)
    ensures r == Fs.Read(v.image[..], v.geo, path, offset, size, u)
  {
    var found := DirectoryImpl.FindFcb(v, path, u.find);
    if found.ret < 0 {
      return FileData.Got(-ENOENT, []);
    }
    var f := Fs.Copied(found, u.fcb);
    if IsDirectory(f.metadata) {
      return FileData.Got(-EISDIR, []);
    }
    r := FileDataImpl.ReadFile(v, f, offset, size);
  }

  /** fat16_write(path, buf, |data|, offset). */
  method Write(v: Volume, path: seq<byte>, data: seq<byte>, offset: nat, u: Fs.Stack) returns (ret: int)
    requires Usable(v.geo)
    modifies v.image
    ensures var s := Fs.Write(old(v.image[..]), v.geo, path, data, offset, u);
      v.image[..] == s.img && ret == s.ret
  {
    if path == Fs.ROOT_PATH {
      return -EISDIR;
    }
    var found := DirectoryImpl.FindFcb(v, path, u.find);
    if found.ret < 0 {
      return -EIO;
    }
    var f := Fs.Copied(found, u.fcb);
    if IsDirectory(f.metadata) {
      return -EISDIR;
    }
    if |data| > Fs.INT32_MAX {
      return -EINVAL;
    }
    var _, n := FileDataImpl.WriteFile(v, f, found.ret, data, offset);
    ret := n;
  }

  /** fat16_truncate(path, offset). */
  method Truncate(v: Volume, path: seq<byte>, offset: nat, u: Fs.Stack) returns (ret: int)
    requires Usable(v.geo)
    modifies v.image
    ensures var s := Fs.Truncate(old(v.image[..]), v.geo, path, offset, u);
      v.image[..] == s.img && ret == s.ret
  {
    var found := DirectoryImpl.FindFcb(v, path, u.find);
    if found.ret < 0 {
      return -ENOENT;
    }
    var f := Fs.Copied(found, u.fcb);
    if IsDirectory(f.metadata) {
      return -EISDIR;
    }
    var _, n := FileDataImpl.Truncate(v, f, found.ret, offset);
    ret := n;
  }

  /** fat16_unlink(path). */
  method Unlink(v: Volume, path: seq<byte>, u: Fs.Stack) returns (ret: int)
    requires Usable(v.geo)
    modifies v.image
    ensures var s := Fs.Unlink(old(v.image[..]), v.geo, path, u);
      v.image[..] == s.img && ret == s.ret
  {
    var found := DirectoryImpl.FindFcb(v, path, u.find);
    if found.ret < 0 {
      return -ENOENT;
    }
    var f := Fs.Copied(found, u.fcb);
    if IsVolumeLabel(f.metadata) {
      return -ENOENT;
    }
    if IsDirectory(f.metadata) {
      return -EISDIR;
    }
    ret := DirectoryImpl.RemoveFile(v, f, found.ret);
  }

  /** fat16_rmdir(path). */
  method Rmdir(v: Volume, path: seq<byte>, u: Fs.Stack) returns (ret: int)
    requires Usable(v.geo)
    modifies v.image
    ensures var s := Fs.Rmdir(old(v.image[..]), v.geo, path, u);
      v.image[..] == s.img && ret == s.ret
  {
    var found := DirectoryImpl.FindFcb(v, path, u.find);
    if found.ret < 0 {
      return -ENOENT;
    }
    var f := Fs.Copied(found, u.fcb);
    if IsVolumeLabel(f.metadata) {
      return -ENOENT;
    }
    if !IsDirectory(f.metadata) {
      return -ENOTDIR;
    }
    var empty := DirectoryImpl.IsDirectoryEmpty(v, f);
    if empty == 0 {
      return -ENOTEMPTY;
    }
    ret := DirectoryImpl.RemoveFile(v, f, found.ret);
  }

  /** The free-entry search shared by create, mkdir and rename: the status
      and the FindOption it leaves. */
  method FindSlot(v: Volume, parent: seq<byte>, u: Fs.Stack) returns (ret: int, opt: FindOption)
    requires Usable(v.geo)
    modifies v.image
    ensures var sl := Fs.FindSlot(old(v.image[..]), v.geo, parent, u);
      v.image[..] == sl.img && ret == sl.ret && opt == sl.opt
  {
    if parent == [] {
      var w := DirectoryImpl.TraverseRootDir(v, Handler(FreeSlot), State(u.opt, []));
      return w.ret, w.state.opt;
    }
    var pr := DirectoryImpl.FindFcb(v, parent, u.findParent);
    if pr.ret < 0 {
      return pr.ret, u.opt;
    }
    var pf := Fs.Copied(pr, u.parentFcb);
    var w := DirectoryImpl.TraverseSubDir(v, pf, Handler(FreeSlot), State(u.opt, []));
    if w.ret < 0 || w.state.opt.pos >= 0 {
      return w.ret, w.state.opt;
    }
    var grown, newCluster := FatImpl.FileNewCluster(v, pf, 1);
    ret := PutEntry(v, pr.ret, grown);
    if ret < 0 {
      return ret, w.state.opt;
    }
    return 0, w.state.opt.(pos := ClusterOffset(v.geo, newCluster), index := 0);
  }

  /** fat16_create(path). */
  method Create(v: Volume, path: seq<byte>, u: Fs.Stack) returns (ret: int)
    requires Usable(v.geo)
    modifies v.image
    ensures var s := Fs.Create(old(v.image[..]), v.geo, path, u);
      v.image[..] == s.img && ret == s.ret
  {
    if path == Fs.ROOT_PATH {
      return -EINVAL;
    }
    var found := DirectoryImpl.FindFcb(v, path, u.find);
    if found.ret >= 0 {
      return -EEXIST;
    }
    var sp := SplitLast(path);
    var opt;
    ret, opt := FindSlot(v, sp.parent, u);
    if ret < 0 {
      return;
    }
    if opt.pos < 0 {
      return -ENFILE;
    }
    var parts := SplitExt(sp.leaf);
    if !ShortName(parts) {
      return -EINVAL;
    }
    ret := PutEntry(v, opt.pos + FCB_SIZE * opt.index, NewEntry(parts.base, parts.ext, 0));
  }

  /** fat16_mkdir(path). */
  method Mkdir(v: Volume, path: seq<byte>, u: Fs.Stack) returns (ret: int)
    requires Usable(v.geo)
    modifies v.image
    ensures var s := Fs.Mkdir(old(v.image[..]), v.geo, path, u);
      v.image[..] == s.img && ret == s.ret
  {
    if path == Fs.ROOT_PATH {
      return -EINVAL;
    }
    var found := DirectoryImpl.FindFcb(v, path, u.find);
    if found.ret >= 0 {
      return -EEXIST;
    }
    var sp := SplitLast(path);
    if !IsFilenameAvailable(sp.leaf) {
      return -EINVAL;
    }
    var opt;
    ret, opt := FindSlot(v, sp.parent, u);
    if ret < 0 {
      return;
    }
    if opt.pos < 0 {
      return -ENFILE;
    }
    ret := PutEntry(v, opt.pos + FCB_SIZE * opt.index, NewEntry(sp.leaf, [], META_DIRECTORY));
  }

  /** fat16_rename(from, to). */
  method Rename(v: Volume, from: seq<byte>, to: seq<byte>, u: Fs.Stack) returns (ret: int)
    requires Usable(v.geo)
    modifies v.image
    ensures var s := Fs.Rename(old(v.image[..]), v.geo, from, to, u);
      v.image[..] == s.img && ret == s.ret
  {
    var r := DirectoryImpl.FindFcb(v, from, u.find);
    var nr := DirectoryImpl.FindFcb(v, to, u.findTo);
    var file := Fs.Copied(r, u.fcb);
    if nr.ret > 0 {
      var target := Fs.Copied(nr, u.fcbTo);
      if IsDirectory(file.metadata) {
        var empty := DirectoryImpl.IsDirectoryEmpty(v, target);
        if empty == 0 {
          return -ENOTEMPTY;
        }
      }
      FatImpl.ReleaseCluster(v, target.firstCluster);
      ret := PutEntry(v, nr.ret, file.(filename := target.filename, extname := target.extname));
      if ret < 0 {
        return;
      }
      ret := PutEntry(v, r.ret, Deleted(file));
      return;
    }
    var sp := SplitLast(to);
    var opt;
    ret, opt := FindSlot(v, sp.parent, u);
    if ret < 0 {
      return;
    }
    if opt.pos < 0 {
      return -ENFILE;
    }
    var parts := SplitExt(sp.leaf);
    if !ShortName(parts) {
      return -EINVAL;
    }
    ret := PutEntry(v, opt.pos + FCB_SIZE * opt.index, Renamed(file, parts.base, parts.ext));
    if ret < 0 {
      return;
    }
    ret := PutEntry(v, r.ret, Deleted(file));
  }
}
