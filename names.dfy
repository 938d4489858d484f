/** Names in utils.c and fat16.c: the 8.3 name codec of a directory entry
    (get_filename and the space-padded fill of create, mkdir and rename),
    the character test of is_filename_available, the case-insensitive
    comparison strcasecmp performs, and the ways a path is cut: strtok on
    '/', and strrchr for the last '/' and the last '.'. Paths are byte
    strings without NUL bytes, as FUSE hands them over. */
module Names {
  import opened Layout

  const NUL: byte := 0

  // ---------------------------------------------------------------------
  // Bytes and C strings

  /** The index of the first `c` in `s`, or `|s|` when there is none. */
  function IndexOf(s: seq<byte>, c: byte): (i: nat)
    ensures i <= |s| && (i < |s| ==> s[i] == c)
  {
    IndexFrom(s, c, 0)
  }

  /** The index of the first `c` in `s` at or after `j`, or `|s|`. */
  function IndexFrom(s: seq<byte>, c: byte, j: nat): (i: nat)
    requires j <= |s|
    ensures j <= i <= |s| && (i < |s| ==> s[i] == c)
    decreases |s| - j
  {
    if j == |s| || s[j] == c then j else IndexFrom(s, c, j + 1)
  }

  /** No `c` comes before the index IndexOf finds. */
  lemma IndexOfFirst(s: seq<byte>, c: byte)
    ensures forall k :: 0 <= k < IndexOf(s, c) ==> s[k] != c
  {
    IndexFromFirst(s, c, 0);
  }

  lemma {:induction false} IndexFromFirst(s: seq<byte>, c: byte, j: nat)
    requires j <= |s|
    ensures forall k :: j <= k < IndexFrom(s, c, j) ==> s[k] != c
    decreases |s| - j
  {
    if j < |s| && s[j] != c { IndexFromFirst(s, c, j + 1); }
  }

  /** The index of the last `c` in `s`, if any. */
  function LastIndexOf(s: seq<byte>, c: byte): (i: int)
    ensures -1 <= i < |s| && (i >= 0 ==> s[i] == c)
    ensures forall k :: i < k < |s| ==> s[k] != c
  {
    LastIndexBefore(s, c, |s|)
  }

  /** The index of the last `c` in `s` before `j`, if any. */
  function LastIndexBefore(s: seq<byte>, c: byte, j: nat): (i: int)
    requires j <= |s|
    ensures -1 <= i < j && (i >= 0 ==> s[i] == c)
    ensures forall k :: i < k < j ==> s[k] != c
  {
    if j == 0 then -1
    else if s[j - 1] == c then j - 1
    else LastIndexBefore(s, c, j - 1)
  }

  /** The C string a buffer holds: its bytes up to the first NUL. */
  function CStr(s: seq<byte>): (r: seq<byte>)
    ensures r == s[..IndexOf(s, NUL)]
  {
    s[..IndexOf(s, NUL)]
  }

  predicate NoByte(s: seq<byte>, c: byte) {
    forall k :: 0 <= k < |s| ==> s[k] != c
  }

  /** The ASCII lower case of a byte (tolower in the C locale). */
  function Lower(c: byte): byte {
    if 'A' as int <= c <= 'Z' as int then c + 0x20 else c
  }

  /** strcasecmp(a, b) == 0 on two C strings. */
  predicate SameIgnoringCase(a: seq<byte>, b: seq<byte>) {
    |a| == |b| && forall k :: 0 <= k < |a| ==> Lower(a[k]) == Lower(b[k])
  }

  // ---------------------------------------------------------------------
  // get_filename (utils.c:58-83)

  /** The name get_filename writes for a directory entry: the name field up
      to its first space, then a dot and the extension up to its first
      space, unless the extension starts with a space. */
  function Fullname(f: Fcb): seq<byte> {
    var i := IndexOf(f.filename, SPACE);
    var j := IndexOf(f.extname, SPACE);
    if j == 0 then f.filename[..i] else f.filename[..i] + [DOT] + f.extname[..j]
  }

  /** The index of the terminating NUL get_filename stores. */
  function Terminator(f: Fcb): nat {
    IndexOf(f.filename, SPACE) + 1 + IndexOf(f.extname, SPACE)
  }

  /** The shape of the name: at most 8 + 1 + 3 bytes, no space in it, and a
      dot exactly when the extension does not start with a space. Its
      terminator lands at index 12 exactly for a full 8.3 name. */
  lemma FullnameShape(f: Fcb)
    ensures |Fullname(f)| <= MAX_FILENAME + 1 + MAX_EXTNAME
    ensures NoByte(Fullname(f), SPACE)
    ensures |Fullname(f)| <= Terminator(f) <= MAX_FULLNAME
    ensures Fullname(f)[..IndexOf(f.filename, SPACE)] == f.filename[..IndexOf(f.filename, SPACE)]
    ensures (f.extname[0] == SPACE) <==> |Fullname(f)| == IndexOf(f.filename, SPACE)
    ensures f.extname[0] != SPACE ==> Fullname(f)[IndexOf(f.filename, SPACE)] == DOT
    ensures Terminator(f) == MAX_FULLNAME <==> NoByte(f.filename, SPACE) && NoByte(f.extname, SPACE)
  {
    var i := IndexOf(f.filename, SPACE);
    var j := IndexOf(f.extname, SPACE);
    IndexOfFirst(f.filename, SPACE);
    IndexOfFirst(f.extname, SPACE);
    if j > 0 {
      var r := Fullname(f);
      assert forall k :: 0 <= k < i ==> r[k] == f.filename[k];
      assert forall k :: i < k < |r| ==> r[k] == f.extname[k - i - 1];
    }
    if i == MAX_FILENAME && j == MAX_EXTNAME {
      assert NoByte(f.filename, SPACE) && NoByte(f.extname, SPACE);
    }
  }

  // ---------------------------------------------------------------------
  // Entry names as create, mkdir and rename fill them

  /** `s` followed by spaces up to `n` bytes (memset with ' ', then memcpy). */
  function Padded(s: seq<byte>, n: nat): (r: seq<byte>)
    requires |s| <= n
    ensures |r| == n && r[..|s|] == s
    ensures forall k :: |s| <= k < n ==> r[k] == SPACE
  {
    s + seq(n - |s|, _ => SPACE)
  }

  /** A new entry: all bytes zero, the name and extension space padded,
      `first_cluster = CLUSTER_END`, and the metadata given. */
  function NewEntry(base: seq<byte>, ext: seq<byte>, metadata: byte): (f: Fcb)
    requires |base| <= MAX_FILENAME && |ext| <= MAX_EXTNAME
    ensures f.firstCluster == CLUSTER_END && f.size == 0 && f.metadata == metadata
  {
    FcbRecord(Padded(base, MAX_FILENAME), Padded(ext, MAX_EXTNAME), metadata,
              seq(10, _ => 0), 0, 0, CLUSTER_END, 0)
  }

  /** An existing entry renamed: every field kept but the 8 + 3 name bytes. */
  function Renamed(f: Fcb, base: seq<byte>, ext: seq<byte>): (r: Fcb)
    requires |base| <= MAX_FILENAME && |ext| <= MAX_EXTNAME
    ensures r.(filename := f.filename, extname := f.extname) == f
  {
    f.(filename := Padded(base, MAX_FILENAME), extname := Padded(ext, MAX_EXTNAME))
  }

  /** What a user names a file with base `base` and extension `ext`: a dot
      appears only before a non-empty extension. */
  function Dotted(base: seq<byte>, ext: seq<byte>): seq<byte> {
    if ext == [] then base else base + [DOT] + ext
  }

  /** Padding a space-free base and extension and reading the entry back
      with get_filename gives the name again. */
  lemma FullnameOfPadded(f: Fcb, base: seq<byte>, ext: seq<byte>)
    requires |base| <= MAX_FILENAME && |ext| <= MAX_EXTNAME
    requires NoByte(base, SPACE) && NoByte(ext, SPACE)
    requires f.filename == Padded(base, MAX_FILENAME) && f.extname == Padded(ext, MAX_EXTNAME)
    ensures Fullname(f) == Dotted(base, ext)
  {
    PaddedIndex(base, MAX_FILENAME);
    PaddedIndex(ext, MAX_EXTNAME);
    assert f.filename[..|base|] == base;
    assert f.extname[..|ext|] == ext;
  }

  lemma PaddedIndex(s: seq<byte>, n: nat)
    requires |s| <= n && NoByte(s, SPACE)
    ensures IndexOf(Padded(s, n), SPACE) == |s|
  {
    var p := Padded(s, n);
    assert forall k :: 0 <= k < |s| ==> p[k] == s[k];
    IndexOfIs(p, SPACE, |s|);
  }

  /** The first `c` is where the bytes before it are not `c`. */
  lemma IndexOfIs(s: seq<byte>, c: byte, i: nat)
    requires i <= |s| && (i < |s| ==> s[i] == c)
    requires forall k :: 0 <= k < i ==> s[k] != c
    ensures IndexOf(s, c) == i
  {
    IndexOfFirst(s, c);
  }

  /** A created or renamed entry is found again under the name it was given:
      its get_filename form matches that name case-insensitively. */
  lemma NewEntryFound(base: seq<byte>, ext: seq<byte>, metadata: byte)
    requires |base| <= MAX_FILENAME && |ext| <= MAX_EXTNAME
    requires NoByte(base, SPACE) && NoByte(ext, SPACE) && NoByte(base, NUL) && NoByte(ext, NUL)
    ensures SameIgnoringCase(CStr(Fullname(NewEntry(base, ext, metadata))), Dotted(base, ext))
  {
    var f := NewEntry(base, ext, metadata);
    FullnameOfPadded(f, base, ext);
    var d := Dotted(base, ext);
    assert NoByte(d, NUL) by {
      if ext != [] {
        assert forall k :: 0 <= k < |d| ==> d[k] == (if k < |base| then base[k] else if k == |base| then DOT else ext[k - |base| - 1]);
      }
    }
    NoNulCStr(d);
  }

  lemma NoNulCStr(s: seq<byte>)
    requires NoByte(s, NUL)
    ensures CStr(s) == s
  {
  }

  // ---------------------------------------------------------------------
  // is_filename_available (utils.c:426-444)

  /** Letters, digits and '_'. */
  predicate NameChar(c: byte) {
    ('a' as int <= c <= 'z' as int) || ('A' as int <= c <= 'Z' as int) ||
    ('0' as int <= c <= '9' as int) || c == '_' as int
  }

  /** is_filename_available(name): 1 to 8 letters, digits or underscores. */
  predicate IsFilenameAvailable(name: seq<byte>) {
    0 < |name| <= MAX_FILENAME && forall k :: 0 <= k < |name| ==> NameChar(name[k])
  }

  /** An available name has no dot, slash, space or NUL, so mkdir stores it
      as the whole base name with a blank extension, and reads back as itself. */
  lemma AvailableNameReadsBack(name: seq<byte>, metadata: byte)
    requires IsFilenameAvailable(name)
    ensures NoByte(name, DOT) && NoByte(name, SLASH) && NoByte(name, SPACE) && NoByte(name, NUL)
    ensures Fullname(NewEntry(name, [], metadata)) == name
  {
    assert NoByte(name, SPACE) by {
      forall k | 0 <= k < |name| ensures name[k] != SPACE { assert NameChar(name[k]); }
    }
    FullnameOfPadded(NewEntry(name, [], metadata), name, []);
  }

  // ---------------------------------------------------------------------
  // Paths

  /** The segments strtok(path, "/") yields, in order. */
  function Segments(p: seq<byte>): seq<seq<byte>>
    decreases |p|
  {
    if |p| == 0 then []
    else if p[0] == SLASH then Segments(p[1..])
    else
      var k := IndexOf(p, SLASH);
      [p[..k]] + Segments(p[k..])
  }

  /** A segment strtok can yield: non-empty and without '/'. */
  predicate Segment(s: seq<byte>) {
    |s| > 0 && NoByte(s, SLASH)
  }

  /** Every segment is non-empty and holds no '/'. */
  lemma {:induction false} SegmentsAreSegments(p: seq<byte>)
    ensures forall k :: 0 <= k < |Segments(p)| ==> Segment(Segments(p)[k])
    decreases |p|
  {
    if |p| > 0 {
      if p[0] == SLASH {
        SegmentsAreSegments(p[1..]);
      } else {
        var k := IndexOf(p, SLASH);
        IndexOfFirst(p, SLASH);
        SegmentsAreSegments(p[k..]);
      }
    }
  }

  /** The absolute path "/s0/s1/..." of a list of segments. */
  function Join(segs: seq<seq<byte>>): seq<byte> {
    if segs == [] then [] else [SLASH] + segs[0] + Join(segs[1..])
  }

  /** strtok gives back the segments an absolute path was joined from. */
  lemma {:induction false} SegmentsOfJoin(segs: seq<seq<byte>>)
    requires forall k :: 0 <= k < |segs| ==> Segment(segs[k])
    ensures Segments(Join(segs)) == segs
  {
    if segs != [] {
      var rest := Join(segs[1..]);
      SegmentsStep(segs[0], rest);
      SegmentsOfJoin(segs[1..]);
    }
  }

  /** One segment after a '/', then a '/' or the end of the path. */
  lemma SegmentsStep(s: seq<byte>, rest: seq<byte>)
    requires Segment(s)
    requires rest == [] || rest[0] == SLASH
    ensures Segments([SLASH] + s + rest) == [s] + Segments(rest)
  {
    var p := [SLASH] + s + rest;
    assert p[1..] == s + rest;
    var q := s + rest;
    assert forall i :: 0 <= i < |s| ==> q[i] == s[i];
    IndexOfIs(q, SLASH, |s|);
    assert q[..|s|] == s;
    assert q[|s|..] == rest;
  }

  /** The cut `strrchr(path, '/')` makes: the parent before the last '/',
      the leaf after it; with no '/', both are the whole path. */
  datatype Split = Split(parent: seq<byte>, leaf: seq<byte>)

  function SplitLast(p: seq<byte>): (r: Split)
    ensures NoByte(r.leaf, SLASH)  || LastIndexOf(p, SLASH) < 0
  {
    var k := LastIndexOf(p, SLASH);
    if k < 0 then Split(p, p) else Split(p[..k], p[k + 1..])
  }

  /** The parent and the leaf put back together around their '/'. */
  lemma SplitLastJoins(p: seq<byte>)
    requires LastIndexOf(p, SLASH) >= 0
    ensures SplitLast(p).parent + [SLASH] + SplitLast(p).leaf == p
    ensures NoByte(SplitLast(p).leaf, SLASH)
  {
    var k := LastIndexOf(p, SLASH);
    assert p == p[..k] + [p[k]] + p[k + 1..];
  }

  /** The cut `strrchr(name, '.')` makes: the base before the last dot and
      the extension after it (possibly empty), or no extension at all. */
  datatype NameParts = NameParts(base: seq<byte>, ext: seq<byte>, dotted: bool)

  function SplitExt(name: seq<byte>): (r: NameParts)
    ensures NoByte(r.ext, DOT)
  {
    var k := LastIndexOf(name, DOT);
    if k < 0 then NameParts(name, [], false) else NameParts(name[..k], name[k + 1..], true)
  }

  /** The length test of create and rename: a base of at most 8 and an
      extension of at most 3 bytes. */
  predicate ShortName(n: NameParts) {
    |n.base| <= MAX_FILENAME && |n.ext| <= MAX_EXTNAME
  }

  /** Cutting at the last dot and joining again gives the name back, except
      that a trailing dot is lost. */
  lemma SplitExtJoins(name: seq<byte>)
    ensures var n := SplitExt(name);
      (n.dotted ==> n.base + [DOT] + n.ext == name) &&
      (!n.dotted ==> n.base == name && NoByte(name, DOT)) &&
      Dotted(n.base, n.ext) == (if n.dotted && n.ext == [] then name[..|name| - 1] else name)
  {
    var k := LastIndexOf(name, DOT);
    if k >= 0 {
      assert name == name[..k] + [name[k]] + name[k + 1..];
    }
  }
}
