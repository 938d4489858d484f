/** The directory code of utils.c as functions of the image: the entry
    tests is_entry_end and is_entry_exists, the three callbacks
    (find_file_callback, get_free_entry_callback, readdir_callback), the
    root and sub-directory walkers that feed them, find_fcb,
    is_directory_empty and remove_file. */
module Directory {
  import opened Layout
  import opened Geometry
  import opened Wrappers
  import Store
  import opened Fat
  import opened Errors
  import opened Names

  // ---------------------------------------------------------------------
  // Entries (utils.c:634-640)

  /** is_entry_end: the first name byte is NUL. */
  predicate IsEntryEnd(f: Fcb) { f.filename[0] == END_MARK }

  /** is_entry_exists: the first name byte is neither a space nor 0xE5. */
  predicate IsEntryExists(f: Fcb) { f.filename[0] != SPACE && f.filename[0] != DELETED_MARK }

  /** `dir[j]` of the page io_read fetched from `pos`: the entry those 32
      bytes encode. */
  function EntryAt(img: seq<byte>, pos: int, j: nat): Fcb
    requires Store.Fits(img, pos + FCB_SIZE * j, FCB_SIZE)
  {
    DecodeFcb(Store.Read(img, pos + FCB_SIZE * j, FCB_SIZE))
  }

  /** The entry is what those bytes encode. */
  lemma EntryAtEncodes(img: seq<byte>, pos: int, j: nat)
    requires Store.Fits(img, pos + FCB_SIZE * j, FCB_SIZE)
    ensures EncodeFcb(EntryAt(img, pos, j)) == Store.Read(img, pos + FCB_SIZE * j, FCB_SIZE)
  {
    FcbBytesRoundTrip(Store.Read(img, pos + FCB_SIZE * j, FCB_SIZE));
  }

  /** The entry at byte offset `off` is live (not an end marker) and its
      get_filename form equals `name` ignoring case. */
  predicate EntryNamed(img: seq<byte>, off: int, f: Fcb, name: seq<byte>) {
    Stored(img, off, f) && !IsEntryEnd(f) && SameIgnoringCase(CStr(Fullname(f)), name)
  }

  /** The 32 bytes at `off` encode `f`. */
  predicate Stored(img: seq<byte>, off: int, f: Fcb) {
    Store.Fits(img, off, FCB_SIZE) && EncodeFcb(f) == Store.Read(img, off, FCB_SIZE)
  }

  /** `f` is stored `k` places after `pos`. */
  predicate StoredAt(img: seq<byte>, pos: int, k: nat, f: Fcb) {
    Stored(img, pos + FCB_SIZE * k, f)
  }

  // ---------------------------------------------------------------------
  // The callbacks (utils.c:188-247)

  /** The record a walk fills (struct FindOption without its name). */
  datatype FindOption = FindOption(pos: int, index: int, fcb: Fcb)

  /** The callback a walk is given; Find carries the name looked for. */
  datatype Visitor = Find(name: seq<byte>) | FreeSlot | ReadDir

  /** What the callbacks update: the FindOption record, and the names the
      readdir callback has handed to filler so far. */
  datatype State = State(opt: FindOption, listed: seq<seq<byte>>)

  /** A callback's verdict, non-zero meaning "stop the walk", and the state
      after it. */
  datatype Step = Step(stop: bool, state: State)

  /** find_file_callback: at the end of the walk or at an end marker it sets
      `pos = -1` and `index = ENT_END`; on a case-insensitive match of the
      get_filename form it records the entry and its place. */
  function FindVisit(name: seq<byte>, s: State, pos: int, index: int, e: Option<Fcb>): Step {
    if e.None? || IsEntryEnd(e.value) then
      Step(true, s.(opt := s.opt.(pos := -1, index := ENT_END)))
    else if SameIgnoringCase(CStr(Fullname(e.value)), name) then
      Step(true, s.(opt := FindOption(pos, index, e.value)))
    else Step(false, s)
  }

  /** get_free_entry_callback: at the end of the walk it sets `pos = -1`
      (its `index -1` statement assigns nothing); an end marker or a
      deleted entry is a free slot, whose place it records. */
  function FreeVisit(s: State, pos: int, index: int, e: Option<Fcb>): Step {
    if e.None? then Step(true, s.(opt := s.opt.(pos := -1)))
    else if e.value.filename[0] == END_MARK || e.value.filename[0] == DELETED_MARK then
      Step(true, s.(opt := s.opt.(pos := pos, index := index)))
    else Step(false, s)
  }

  /** readdir_callback: deleted entries and volume labels are skipped, an
      end marker stops the walk, and every other entry's get_filename form
      goes to filler. */
  function ReadDirVisit(s: State, e: Option<Fcb>): Step {
    if e.None? then Step(true, s)
    else if e.value.filename[0] == DELETED_MARK || IsVolumeLabel(e.value.metadata) then Step(false, s)
    else if IsEntryEnd(e.value) then Step(true, s)
    else Step(false, s.(listed := s.listed + [CStr(Fullname(e.value))]))
  }

  function Visit(v: Visitor, s: State, pos: int, index: int, e: Option<Fcb>): Step {
    match v
    case Find(name) => FindVisit(name, s, pos, index, e)
    case FreeSlot => FreeVisit(s, pos, index, e)
    case ReadDir => ReadDirVisit(s, e)
  }

  /** A callback as the walkers receive it: the state, the page's offset,
      the entry's index and the entry (none at the end of the walk). */
  type Callback = (State, int, int, Option<Fcb>) -> Step

  function Handler(v: Visitor): Callback {
    (s: State, pos: int, index: int, e: Option<Fcb>) => Visit(v, s, pos, index, e)
  }

  // ---------------------------------------------------------------------
  // The walkers (utils.c:109-186)

  /** The status of a walk and the state it leaves. */
  datatype Walked = Walked(ret: int, state: State)

  /** The inner loop's outcome on one page: whether it stopped the walk. */
  datatype Scan = Scan(stopped: bool, state: State)

  /** The entries `i` up to `n` of the page at `off`: the `dir` buffer
      io_read fills, entry by entry. */
  function Page(img: seq<byte>, off: int, i: nat, n: nat): (p: seq<Fcb>)
    requires Store.Fits(img, off, FCB_SIZE * n)
    ensures |p| == if i <= n then n - i else 0
    decreases n - i, 1
  {
    if i >= n then [] else PageFrom(img, off, i, n)
  }

  /** Entry `i` followed by the rest of the page. */
  function PageFrom(img: seq<byte>, off: int, i: nat, n: nat): (p: seq<Fcb>)
    requires Store.Fits(img, off, FCB_SIZE * n) && i < n
    ensures |p| == n - i
    decreases n - i, 0
  {
    [EntryAt(img, off, i)] + Page(img, off, i + 1, n)
  }

  /** Entry `k` of the buffer is the entry stored `k` places after `off`. */
  lemma {:induction false} PageAt(img: seq<byte>, off: int, i: nat, n: nat, k: nat)
    requires Store.Fits(img, off, FCB_SIZE * n) && i <= k < n
    ensures Page(img, off, i, n)[k - i] == EntryAt(img, off, k)
    decreases n - i
  {
    if k > i { PageAt(img, off, i + 1, n, k); }
  }

  /** Every entry of `dir` is the one stored at its place after `pos`. */
  ghost predicate Holds(img: seq<byte>, pos: int, dir: seq<Fcb>) {
    forall k {:trigger StoredAt(img, pos, k, dir[k])} :: 0 <= k < |dir| ==> StoredAt(img, pos, k, dir[k])
  }

  lemma BufferHolds(img: seq<byte>, g: Geometry, pos: int)
    requires Usable(g) && Store.Fits(img, pos, g.sizeCluster)
    ensures Holds(img, pos, Buffer(img, g, pos))
  {
    forall k | 0 <= k < g.fcbPerCluster
      ensures StoredAt(img, pos, k, Buffer(img, g, pos)[k])
    {
      PageAt(img, pos, 0, g.fcbPerCluster, k);
      EntryAtEncodes(img, pos, k);
    }
  }

  /** The buffer of one directory page at `pos`: `fcb_per_cluster` entries. */
  function Buffer(img: seq<byte>, g: Geometry, pos: int): (dir: seq<Fcb>)
    requires Usable(g) && Store.Fits(img, pos, g.sizeCluster)
    ensures |dir| == g.fcbPerCluster
  {
    Page(img, pos, 0, g.fcbPerCluster)
  }

  /** `dir[k].filename[0] == '\0'`. An index past the entries of the buffer
      is taken to hold no end marker. */
  predicate EndAt(dir: seq<Fcb>, k: nat) {
    k < |dir| && IsEntryEnd(dir[k])
  }

  /** The inner loop over entries `j` up to `n` of the buffer `dir` read at
      `pos`: the callback sees `dir[j]`, and the walk stops when it says so
      or when the entry `probe` names is an end marker. The root walker
      tests `dir[i]`, the page index (`probe == Some(i)`); the sub-directory
      walker tests `dir[j]` itself (`probe == None`). */
  function ScanPage(cb: Callback, s: State, dir: seq<Fcb>, pos: int, j: nat, n: nat,
                    probe: Option<nat>): Scan
    requires n <= |dir|
    decreases n - j
  {
    if j >= n then Scan(false, s)
    else
      var st := cb(s, pos, j, Some(dir[j]));
      var k := if probe.Some? then probe.value else j;
      if st.stop || EndAt(dir, k) then Scan(true, st.state)
      else ScanPage(cb, st.state, dir, pos, j + 1, n, probe)
  }

  /** Pages of the root directory region: `(entries * 32 + size_cluster - 1) / size_cluster`. */
  function RootPages(g: Geometry): nat
    requires Usable(g)
  {
    (g.rootEntries * FCB_SIZE + g.sizeCluster - 1) / g.sizeCluster
  }

  function Min(a: nat, b: nat): nat { if a < b then a else b }

  /** The page loop of traverse_root_dir from page `i`, `entries` being the
      `size_t` count of entries not yet consumed (it wraps around below 0)
      and `pos` the page's offset. After the last page the callback is
      called once with no entry. */
  function RootLoop(img: seq<byte>, g: Geometry, cb: Callback, s: State, i: nat, pages: nat,
                    entries: nat, pos: int): Walked
    requires Usable(g)
    decreases pages - i
  {
    if i >= pages then Walked(0, cb(s, -1, -1, None).state)
    else if !Store.Fits(img, pos, g.sizeCluster) then Walked(-ENODATA, s)
    else
      var sc := ScanPage(cb, s, Buffer(img, g, pos), pos, 0, Min(g.fcbPerCluster, entries), Some(i));
      if sc.stopped then Walked(0, sc.state)
      else RootLoop(img, g, cb, sc.state, i + 1, pages, (entries - g.fcbPerCluster) % TWO_64,
                    pos + g.sizeCluster)
  }

  /** traverse_root_dir(opt, callback). */
  function RootWalk(img: seq<byte>, g: Geometry, cb: Callback, s: State): Walked
    requires Usable(g)
  {
    RootLoop(img, g, cb, s, 0, RootPages(g), g.rootEntries, g.offsetRoot)
  }

  /** The cluster loop of traverse_sub_dir from cluster `cur`: `-ESPIPE` for
      a cluster without an offset (FREE included), `-ENODATA` for a page
      that cannot be read. When the chain ends, the callback is called once
      with no entry. The loop has no bound in the source; here it stops
      after `fuel` clusters, which only a cyclic chain can use up. */
  function SubLoop(img: seq<byte>, g: Geometry, cb: Callback, s: State, cur: u16, fuel: nat): Walked
    requires Usable(g)
    decreases fuel
  {
    if cur == CLUSTER_END || fuel == 0 then Walked(0, cb(s, -1, -1, None).state)
    else
      var pos := ClusterOffset(g, cur);
      if pos == -1 then Walked(-ESPIPE, s)
      else if !Store.Fits(img, pos, g.sizeCluster) then Walked(-ENODATA, s)
      else
        var sc := ScanPage(cb, s, Buffer(img, g, pos), pos, 0, g.fcbPerCluster, None);
        if sc.stopped then Walked(0, sc.state)
        else SubLoop(img, g, cb, sc.state, NextCluster(img, g, cur), fuel - 1)
  }

  /** traverse_sub_dir(fcb, opt, callback): `-ENOTDIR` unless the entry is a
      directory. */
  function SubWalk(img: seq<byte>, g: Geometry, dir: Fcb, cb: Callback, s: State): Walked
    requires Usable(g)
  {
    if !IsDirectory(dir.metadata) then Walked(-ENOTDIR, s)
    else SubLoop(img, g, cb, s, dir.firstCluster, Bound(g))
  }

  // ---------------------------------------------------------------------
  // What a search by name finds

  /** find_file_callback's record after the end was reached. */
  predicate Ended(o: FindOption, before: FindOption) {
    o == before.(pos := -1, index := ENT_END)
  }

  /** The record names a live entry at `pos + 32 * index` whose name matches. */
  predicate Matched(img: seq<byte>, o: FindOption, name: seq<byte>) {
    o.pos >= 0 && o.index >= 0 && EntryNamed(img, o.pos + FCB_SIZE * o.index, o.fcb, name)
  }

  /** The search ended at the end of the directory or on a matching entry. */
  predicate Hit(img: seq<byte>, name: seq<byte>, before: FindOption, after: FindOption) {
    Ended(after, before) || Matched(img, after, name)
  }

  /** A search left the record as it was or hit, and handed nothing to filler. */
  predicate Searched(img: seq<byte>, name: seq<byte>, s: State, t: State) {
    t.opt == s.opt || Hit(img, name, s.opt, t.opt)
  }

  /** A search on one page leaves the record as it was, marks the end, or
      records a matching entry; without a probe of its own (the
      sub-directory walker) it marks the end or matches whenever it stops,
      and it stops only then. */
  lemma {:induction false} FindScan(img: seq<byte>, name: seq<byte>, s: State, dir: seq<Fcb>, pos: int,
                                    j: nat, n: nat, probe: Option<nat>)
    requires n <= |dir| && Holds(img, pos, dir)
    ensures var r := ScanPage(Handler(Find(name)), s, dir, pos, j, n, probe);
      Searched(img, name, s, r.state) &&
      (!r.stopped ==> r.state.opt == s.opt) &&
      (probe.None? && r.stopped ==> Hit(img, name, s.opt, r.state.opt))
    decreases n - j
  {
    if j < n {
      var cb := Handler(Find(name));
      var st := Visit(Find(name), s, pos, j, Some(dir[j]));
      assert cb(s, pos, j, Some(dir[j])) == st;
      assert StoredAt(img, pos, 0, dir[0]) && StoredAt(img, pos, j, dir[j]);
      if !st.stop {
        assert st.state == s;
        var k := if probe.Some? then probe.value else j;
        if EndAt(dir, k) {
          assert ScanPage(cb, s, dir, pos, j, n, probe) == Scan(true, s);
        } else {
          assert ScanPage(cb, s, dir, pos, j, n, probe) == ScanPage(cb, s, dir, pos, j + 1, n, probe);
          FindScan(img, name, s, dir, pos, j + 1, n, probe);
        }
      }
    }
  }

  /** Every page scan of the root walker that starts in a `P` state stops in
      a `Q` state or goes on in a `P` state. */
  ghost predicate RootPagesKeep(img: seq<byte>, g: Geometry, cb: Callback,
                                P: State -> bool, Q: State -> bool)
    requires Usable(g)
  {
    forall t: State, p: int, n: nat, k: nat ::
      P(t) && Store.Fits(img, p, g.sizeCluster) && n <= g.fcbPerCluster ==>
        var sc := ScanPage(cb, t, Buffer(img, g, p), p, 0, n, Some(k));
        if sc.stopped then Q(sc.state) else P(sc.state)
  }

  /** The same for the sub-directory walker, which has no probe. */
  ghost predicate SubPagesKeep(img: seq<byte>, g: Geometry, cb: Callback,
                               P: State -> bool, Q: State -> bool)
    requires Usable(g)
  {
    forall t: State, p: int ::
      P(t) && Store.Fits(img, p, g.sizeCluster) ==>
        var sc := ScanPage(cb, t, Buffer(img, g, p), p, 0, g.fcbPerCluster, None);
        if sc.stopped then Q(sc.state) else P(sc.state)
  }

  /** The final callback without an entry takes a `P` state to a `Q` state. */
  ghost predicate EndKeeps(cb: Callback, P: State -> bool, Q: State -> bool) {
    forall t: State :: P(t) ==> Q(cb(t, -1, -1, None).state)
  }

  /** The root walker keeps any invariant its page scans keep: it returns 0
      in a `Q` state or `-ENODATA` in a `P` state. */
  lemma {:induction false} RootLoopKeeps(img: seq<byte>, g: Geometry, cb: Callback,
                                         P: State -> bool, Q: State -> bool, s: State,
                                         i: nat, pages: nat, entries: nat, pos: int)
    requires Usable(g) && P(s)
    requires RootPagesKeep(img, g, cb, P, Q) && EndKeeps(cb, P, Q)
    ensures var w := RootLoop(img, g, cb, s, i, pages, entries, pos);
      (w.ret == 0 || w.ret == -ENODATA) && (w.ret == 0 ==> Q(w.state)) &&
      (w.ret != 0 ==> P(w.state))
    decreases pages - i
  {
    if i < pages && Store.Fits(img, pos, g.sizeCluster) {
      var sc := ScanPage(cb, s, Buffer(img, g, pos), pos, 0, Min(g.fcbPerCluster, entries), Some(i));
      if !sc.stopped {
        RootLoopKeeps(img, g, cb, P, Q, sc.state, i + 1, pages,
                      (entries - g.fcbPerCluster) % TWO_64, pos + g.sizeCluster);
      }
    }
  }

  /** The sub-directory walker keeps any invariant its page scans keep: it
      returns 0 in a `Q` state, or `-ESPIPE` or `-ENODATA` in a `P` state. */
  lemma {:induction false} SubLoopKeeps(img: seq<byte>, g: Geometry, cb: Callback,
                                        P: State -> bool, Q: State -> bool, s: State,
                                        cur: u16, fuel: nat)
    requires Usable(g) && P(s)
    requires SubPagesKeep(img, g, cb, P, Q) && EndKeeps(cb, P, Q)
    ensures var w := SubLoop(img, g, cb, s, cur, fuel);
      (w.ret == 0 || w.ret == -ESPIPE || w.ret == -ENODATA) && (w.ret == 0 ==> Q(w.state)) &&
      (w.ret != 0 ==> P(w.state))
    decreases fuel
  {
    if cur != CLUSTER_END && fuel > 0 {
      var pos := ClusterOffset(g, cur);
      if pos != -1 && Store.Fits(img, pos, g.sizeCluster) {
        var sc := ScanPage(cb, s, Buffer(img, g, pos), pos, 0, g.fcbPerCluster, None);
        if !sc.stopped {
          SubLoopKeeps(img, g, cb, P, Q, sc.state, NextCluster(img, g, cur), fuel - 1);
        }
      }
    }
  }

  /** A search of the root directory: 0 or `-ENODATA`, the latter with the
      record untouched; the record afterwards is the one given (the walk can
      stop on `dir[i]` without a callback match), the end mark, or a
      matching entry. */
  lemma FindInRoot(img: seq<byte>, g: Geometry, name: seq<byte>, s: State)
    requires Usable(g)
    ensures var w := RootWalk(img, g, Handler(Find(name)), s);
      (w.ret == 0 || w.ret == -ENODATA) &&
      (w.ret < 0 ==> w.state.opt == s.opt) &&
      Searched(img, name, s, w.state)
  {
    var P := (t: State) => t.opt == s.opt;
    var Q := (t: State) => Searched(img, name, s, t);
    forall t: State, p: int, n: nat, k: nat |
      P(t) && Store.Fits(img, p, g.sizeCluster) && n <= g.fcbPerCluster
      ensures var sc := ScanPage(Handler(Find(name)), t, Buffer(img, g, p), p, 0, n, Some(k));
        if sc.stopped then Q(sc.state) else P(sc.state)
    {
      BufferHolds(img, g, p);
      FindScan(img, name, t, Buffer(img, g, p), p, 0, n, Some(k));
    }
    RootLoopKeeps(img, g, Handler(Find(name)), P, Q, s, 0, RootPages(g), g.rootEntries, g.offsetRoot);
  }

  /** A search of a sub-directory: `-ENOTDIR` for an entry that is not a
      directory, `-ESPIPE` or `-ENODATA` on a bad chain, each with the
      record untouched; otherwise 0, with the end marked or a matching
      entry recorded. */
  lemma FindInSub(img: seq<byte>, g: Geometry, dir: Fcb, name: seq<byte>, s: State)
    requires Usable(g)
    ensures var w := SubWalk(img, g, dir, Handler(Find(name)), s);
      (!IsDirectory(dir.metadata) ==> w == Walked(-ENOTDIR, s)) &&
      (w.ret == 0 || w.ret == -ENOTDIR || w.ret == -ESPIPE || w.ret == -ENODATA) &&
      (w.ret < 0 ==> w.state.opt == s.opt) &&
      (w.ret == 0 ==> Hit(img, name, s.opt, w.state.opt))
  {
    if IsDirectory(dir.metadata) {
      var P := (t: State) => t.opt == s.opt;
      var Q := (t: State) => Hit(img, name, s.opt, t.opt);
      forall t: State, p: int | P(t) && Store.Fits(img, p, g.sizeCluster)
        ensures var sc := ScanPage(Handler(Find(name)), t, Buffer(img, g, p), p, 0, g.fcbPerCluster, None);
          if sc.stopped then Q(sc.state) else P(sc.state)
      {
        BufferHolds(img, g, p);
        FindScan(img, name, t, Buffer(img, g, p), p, 0, g.fcbPerCluster, None);
      }
      SubLoopKeeps(img, g, Handler(Find(name)), P, Q, s, dir.firstCluster, Bound(g));
    }
  }

  /** The record names a slot whose first byte is 0x00 or 0xE5: a place
      for a new entry. */
  predicate FreeAt(img: seq<byte>, o: FindOption) {
    o.pos >= 0 && o.index >= 0 && Store.Fits(img, o.pos + FCB_SIZE * o.index, FCB_SIZE) &&
    (img[o.pos + FCB_SIZE * o.index] == END_MARK || img[o.pos + FCB_SIZE * o.index] == DELETED_MARK)
  }

  /** The first byte of a stored entry is the first byte of its name. */
  lemma StoredFirstByte(img: seq<byte>, off: int, f: Fcb)
    requires Stored(img, off, f)
    ensures img[off] == f.filename[0]
  {
    FcbFieldOffsets(f);
    assert EncodeFcb(f)[0] == EncodeFcb(f)[0..8][0];
  }

  /** A search for a free slot left the record as it was, marked the end of
      the walk with `pos = -1` (the index untouched), or recorded a free slot. */
  predicate Freed(img: seq<byte>, s: State, t: State) {
    t.opt == s.opt || t.opt == s.opt.(pos := -1) || (FreeAt(img, t.opt) && t.opt.fcb == s.opt.fcb)
  }

  /** A free-slot search on one page: it stops only on a free slot, except
      for the root walker's own probe, which leaves the record as it was. */
  lemma {:induction false} FreeScan(img: seq<byte>, s: State, dir: seq<Fcb>, pos: int,
                                    j: nat, n: nat, probe: Option<nat>)
    requires n <= |dir| && Holds(img, pos, dir)
    ensures var r := ScanPage(Handler(FreeSlot), s, dir, pos, j, n, probe);
      Freed(img, s, r.state) &&
      (!r.stopped ==> r.state.opt == s.opt) &&
      (probe.None? && r.stopped ==> FreeAt(img, r.state.opt) && r.state.opt.fcb == s.opt.fcb)
    decreases n - j
  {
    if j < n {
      var cb := Handler(FreeSlot);
      var st := Visit(FreeSlot, s, pos, j, Some(dir[j]));
      assert cb(s, pos, j, Some(dir[j])) == st;
      assert StoredAt(img, pos, 0, dir[0]) && StoredAt(img, pos, j, dir[j]);
      StoredFirstByte(img, pos + FCB_SIZE * j, dir[j]);
      if !st.stop {
        assert st.state == s;
        var k := if probe.Some? then probe.value else j;
        if EndAt(dir, k) {
          assert ScanPage(cb, s, dir, pos, j, n, probe) == Scan(true, s);
        } else {
          assert ScanPage(cb, s, dir, pos, j, n, probe) == ScanPage(cb, s, dir, pos, j + 1, n, probe);
          FreeScan(img, s, dir, pos, j + 1, n, probe);
        }
      }
    }
  }

  /** get_free_entry over the root directory: 0 or `-ENODATA`, the latter
      with the record untouched; the record afterwards is the one given,
      the end mark, or a free slot. */
  lemma FreeInRoot(img: seq<byte>, g: Geometry, s: State)
    requires Usable(g)
    ensures var w := RootWalk(img, g, Handler(FreeSlot), s);
      (w.ret == 0 || w.ret == -ENODATA) &&
      (w.ret < 0 ==> w.state.opt == s.opt) &&
      Freed(img, s, w.state)
  {
    var P := (t: State) => t.opt == s.opt;
    var Q := (t: State) => Freed(img, s, t);
    forall t: State, p: int, n: nat, k: nat |
      P(t) && Store.Fits(img, p, g.sizeCluster) && n <= g.fcbPerCluster
      ensures var sc := ScanPage(Handler(FreeSlot), t, Buffer(img, g, p), p, 0, n, Some(k));
        if sc.stopped then Q(sc.state) else P(sc.state)
    {
      BufferHolds(img, g, p);
      FreeScan(img, t, Buffer(img, g, p), p, 0, n, Some(k));
    }
    RootLoopKeeps(img, g, Handler(FreeSlot), P, Q, s, 0, RootPages(g), g.rootEntries, g.offsetRoot);
  }

  /** get_free_entry over a sub-directory: `-ENOTDIR` for an entry that is
      not a directory, `-ESPIPE` or `-ENODATA` on a bad chain, each with the
      record untouched; otherwise 0 with a free slot recorded, or `pos = -1`
      when every page of the chain is full. */
  lemma FreeInSub(img: seq<byte>, g: Geometry, dir: Fcb, s: State)
    requires Usable(g)
    ensures var w := SubWalk(img, g, dir, Handler(FreeSlot), s);
      (!IsDirectory(dir.metadata) ==> w == Walked(-ENOTDIR, s)) &&
      (w.ret == 0 || w.ret == -ENOTDIR || w.ret == -ESPIPE || w.ret == -ENODATA) &&
      (w.ret < 0 ==> w.state.opt == s.opt) &&
      (w.ret == 0 ==> (FreeAt(img, w.state.opt) && w.state.opt.fcb == s.opt.fcb) ||
                      w.state.opt == s.opt.(pos := -1))
  {
    if IsDirectory(dir.metadata) {
      var P := (t: State) => t.opt == s.opt;
      var Q := (t: State) => (FreeAt(img, t.opt) && t.opt.fcb == s.opt.fcb) || t.opt == s.opt.(pos := -1);
      forall t: State, p: int | P(t) && Store.Fits(img, p, g.sizeCluster)
        ensures var sc := ScanPage(Handler(FreeSlot), t, Buffer(img, g, p), p, 0, g.fcbPerCluster, None);
          if sc.stopped then Q(sc.state) else P(sc.state)
      {
        BufferHolds(img, g, p);
        FreeScan(img, t, Buffer(img, g, p), p, 0, g.fcbPerCluster, None);
      }
      SubLoopKeeps(img, g, Handler(FreeSlot), P, Q, s, dir.firstCluster, Bound(g));
    }
  }

  // ---------------------------------------------------------------------
  // readdir_callback (utils.c:211-228) under the walkers

  /** What a listing does to the state `s` it starts from, leaving `t`: the
      search record is untouched, names are only appended, and each
      appended name is at most MAX_FULLNAME bytes long. */
  ghost predicate Lists(s: State, t: State) {
    t.opt == s.opt && s.listed <= t.listed &&
    forall k :: |s.listed| <= k < |t.listed| ==> |t.listed[k]| <= MAX_FULLNAME
  }

  /** The readdir callback over one page keeps Lists. */
  lemma {:induction false} ListScan(s: State, dir: seq<Fcb>, pos: int, j: nat, n: nat, probe: Option<nat>)
    requires n <= |dir|
    ensures Lists(s, ScanPage(Handler(ReadDir), s, dir, pos, j, n, probe).state)
    decreases n - j
  {
    if j < n {
      var cb := Handler(ReadDir);
      var st := Visit(ReadDir, s, pos, j, Some(dir[j]));
      assert cb(s, pos, j, Some(dir[j])) == st;
      FullnameShape(dir[j]);
      assert Lists(s, st.state);
      var k := if probe.Some? then probe.value else j;
      if !st.stop && !EndAt(dir, k) {
        var r := ScanPage(cb, st.state, dir, pos, j + 1, n, probe);
        ListScan(st.state, dir, pos, j + 1, n, probe);
        assert ScanPage(cb, s, dir, pos, j, n, probe) == r;
        ListsTrans(s, st.state, r.state);
      }
    }
  }

  /** The readdir walk of the root directory: 0 or `-ENODATA`, with the
      search record untouched and only names of at most MAX_FULLNAME bytes
      appended to the listing. */
  lemma ListInRoot(img: seq<byte>, g: Geometry, s: State)
    requires Usable(g)
    ensures var w := RootWalk(img, g, Handler(ReadDir), s);
      (w.ret == 0 || w.ret == -ENODATA) && Lists(s, w.state)
  {
    var P := (t: State) => Lists(s, t);
    forall t: State, p: int, n: nat, k: nat |
      P(t) && Store.Fits(img, p, g.sizeCluster) && n <= g.fcbPerCluster
      ensures var sc := ScanPage(Handler(ReadDir), t, Buffer(img, g, p), p, 0, n, Some(k));
        P(sc.state)
    {
      BufferHolds(img, g, p);
      ListScan(t, Buffer(img, g, p), p, 0, n, Some(k));
      ListsTrans(s, t, ScanPage(Handler(ReadDir), t, Buffer(img, g, p), p, 0, n, Some(k)).state);
    }
    RootLoopKeeps(img, g, Handler(ReadDir), P, P, s, 0, RootPages(g), g.rootEntries, g.offsetRoot);
  }

  /** The readdir walk of a sub-directory: `-ENOTDIR` for an entry that is
      not a directory, otherwise 0, `-ESPIPE` or `-ENODATA`, each with the
      search record untouched and only short names appended. */
  lemma ListInSub(img: seq<byte>, g: Geometry, dir: Fcb, s: State)
    requires Usable(g)
    ensures var w := SubWalk(img, g, dir, Handler(ReadDir), s);
      (!IsDirectory(dir.metadata) ==> w == Walked(-ENOTDIR, s)) &&
      (w.ret == 0 || w.ret == -ENOTDIR || w.ret == -ESPIPE || w.ret == -ENODATA) &&
      Lists(s, w.state)
  {
    if IsDirectory(dir.metadata) {
      var P := (t: State) => Lists(s, t);
      forall t: State, p: int | P(t) && Store.Fits(img, p, g.sizeCluster)
        ensures var sc := ScanPage(Handler(ReadDir), t, Buffer(img, g, p), p, 0, g.fcbPerCluster, None);
          P(sc.state)
      {
        BufferHolds(img, g, p);
        ListScan(t, Buffer(img, g, p), p, 0, g.fcbPerCluster, None);
        ListsTrans(s, t, ScanPage(Handler(ReadDir), t, Buffer(img, g, p), p, 0, g.fcbPerCluster, None).state);
      }
      SubLoopKeeps(img, g, Handler(ReadDir), P, P, s, dir.firstCluster, Bound(g));
    }
  }

  /** Listing twice in a row is a listing. */
  lemma ListsTrans(a: State, b: State, c: State)
    requires Lists(a, b) && Lists(b, c)
    ensures Lists(a, c)
  {
    forall i | |a.listed| <= i < |c.listed|
      ensures |c.listed[i]| <= MAX_FULLNAME
    {
      if i < |b.listed| {
        assert c.listed[i] == b.listed[i];
      }
    }
  }

  /** The root walker's probe of `dir[i]`: on a page `i >= 1` whose entry
      `i` is an end marker, the walk stops after the callback has seen the
      page's first entry only, and a search that did not match that entry
      ends with its record untouched, neither found nor marked as ended. */
  lemma RootProbeStopsEarly(name: seq<byte>, s: State, dir: seq<Fcb>, pos: int, i: nat, n: nat)
    requires 1 <= i < |dir| && 1 <= n <= |dir|
    requires IsEntryEnd(dir[i]) && !IsEntryEnd(dir[0])
    requires !SameIgnoringCase(CStr(Fullname(dir[0])), name)
    ensures ScanPage(Handler(Find(name)), s, dir, pos, 0, n, Some(i)) == Scan(true, s)
  {
    assert EndAt(dir, i);
  }

  // ---------------------------------------------------------------------
  // find_fcb (utils.c:8-56)

  /** The state of find_fcb's loop: the last walk's status, the record,
      whether `fcb` points at the record yet, and whether the loop broke. */
  datatype Look = Look(result: int, opt: FindOption, found: bool, stopped: bool)

  /** One segment: the root walker for the first, the sub-directory walker
      on the entry found last for the others; a negative status or a
      negative index breaks the loop. */
  function ResolveStep(img: seq<byte>, g: Geometry, l: Look, seg: seq<byte>, root: bool): Look
    requires Usable(g)
  {
    if l.stopped then l
    else
      var s := State(l.opt, []);
      var w := if root then RootWalk(img, g, Handler(Find(seg)), s) else SubWalk(img, g, l.opt.fcb, Handler(Find(seg)), s);
      if w.ret < 0 || w.state.opt.index < 0 then Look(w.ret, w.state.opt, l.found, true)
      else Look(w.ret, w.state.opt, true, false)
  }

  /** The loop over the remaining segments. */
  function Resolve(img: seq<byte>, g: Geometry, segs: seq<seq<byte>>, l: Look, root: bool): Look
    requires Usable(g)
    decreases |segs|
  {
    if segs == [] then l else Resolve(img, g, segs[1..], ResolveStep(img, g, l, segs[0], root), false)
  }

  /** find_fcb's result and what it copies into `*ret`; None leaves the
      caller's structure as it was. */
  datatype Found = Found(ret: int, fcb: Option<Fcb>)

  /** find_fcb(path, ret). The FindOption record starts out as `junk`: it is
      an uninitialised local in the source, and the root walker can return
      without any callback having written it. */
  function FindFcb(img: seq<byte>, g: Geometry, path: seq<byte>, junk: FindOption): Found
    requires Usable(g)
  {
    FindSegments(img, g, Segments(path), junk)
  }

  function FindSegments(img: seq<byte>, g: Geometry, segs: seq<seq<byte>>, junk: FindOption): Found
    requires Usable(g)
  {
    var l := Resolve(img, g, segs, Look(-1, junk, false, false), true);
    var ret := if l.result >= 0 && l.opt.index >= 0 then l.opt.pos + FCB_SIZE * l.opt.index else -ENOENT;
    Found(ret, if l.found then Some(l.opt.fcb) else None)
  }

  /** The loop breaks exactly on a negative status or index, and once the
      first segment has been resolved the record names a matching entry
      for the last segment seen, unless the root walker stopped without a
      callback and left the record as it was. */
  lemma {:induction false} ResolveMatches(img: seq<byte>, g: Geometry, segs: seq<seq<byte>>, l: Look, root: bool)
    requires Usable(g)
    requires l.stopped ==> l.result < 0 || l.opt.index < 0
    ensures var r := Resolve(img, g, segs, l, root);
      (r.stopped ==> r.result < 0 || r.opt.index < 0) &&
      (l.stopped ==> r == l) &&
      (!r.stopped && segs != [] ==>
        r.found && r.result >= 0 && r.opt.index >= 0 &&
        (Matched(img, r.opt, segs[|segs| - 1]) || (root && |segs| == 1 && r.opt == l.opt)))
    decreases |segs|
  {
    if segs != [] {
      var l1 := ResolveStep(img, g, l, segs[0], root);
      if !l.stopped {
        var s := State(l.opt, []);
        if root { FindInRoot(img, g, segs[0], s); } else { FindInSub(img, g, l.opt.fcb, segs[0], s); }
      }
      ResolveMatches(img, g, segs[1..], l1, false);
      if |segs| > 1 { assert segs[1..][|segs[1..]| - 1] == segs[|segs| - 1]; }
    }
  }

  /** A path without segments ("/" or "") is not found. */
  lemma FindFcbNoSegments(img: seq<byte>, g: Geometry, path: seq<byte>, junk: FindOption)
    requires Usable(g) && Segments(path) == []
    ensures FindFcb(img, g, path, junk) == Found(-ENOENT, None)
  {
  }

  /** The one way find_fcb can hand back the uninitialised record: a
      single-segment path whose root walk stopped on the `dir[i]` probe
      without a callback match, the record's index being non-negative. */
  predicate Stale(r: Found, segs: seq<seq<byte>>, junk: FindOption) {
    |segs| == 1 && r.ret == junk.pos + FCB_SIZE * junk.index && r.fcb == Some(junk.fcb)
  }

  /** A non-negative result of find_fcb is the offset of a live entry whose
      get_filename form matches the last segment ignoring case, and that
      entry is what it copies out; any other result is `-ENOENT`. The one
      exception to both is the uninitialised record (Stale). */
  lemma FindFcbFound(img: seq<byte>, g: Geometry, path: seq<byte>, junk: FindOption)
    requires Usable(g)
    ensures var segs := Segments(path);
      var r := FindFcb(img, g, path, junk);
      (r.ret >= 0 ==>
        segs != [] && r.fcb.Some? &&
        (EntryNamed(img, r.ret, r.fcb.value, segs[|segs| - 1]) || Stale(r, segs, junk))) &&
      (r.ret < 0 ==> r.ret == -ENOENT || Stale(r, segs, junk))
  {
    var segs := Segments(path);
    ResolveMatches(img, g, segs, Look(-1, junk, false, false), true);
  }

  /** The loop over `segs + rest` is the loop over `rest` continued from
      where the loop over `segs` left off. */
  lemma {:induction false} ResolveAppend(img: seq<byte>, g: Geometry, segs: seq<seq<byte>>,
                                         rest: seq<seq<byte>>, l: Look, root: bool)
    requires Usable(g)
    ensures Resolve(img, g, segs + rest, l, root) ==
      Resolve(img, g, rest, Resolve(img, g, segs, l, root), root && segs == [])
    decreases |segs|
  {
    if segs != [] {
      assert (segs + rest)[0] == segs[0] && (segs + rest)[1..] == segs[1..] + rest;
      var l1 := ResolveStep(img, g, l, segs[0], root);
      assert Resolve(img, g, segs + rest, l, root) == Resolve(img, g, segs[1..] + rest, l1, false);
      assert Resolve(img, g, segs, l, root) == Resolve(img, g, segs[1..], l1, false);
      ResolveAppend(img, g, segs[1..], rest, l1, false);
    } else {
      assert segs + rest == rest;
    }
  }

  /** Below an entry that is not a directory no path resolves: the
      sub-directory walker refuses it with `-ENOTDIR`. */
  lemma FindFcbBelowFile(img: seq<byte>, g: Geometry, segs: seq<seq<byte>>, rest: seq<seq<byte>>,
                         junk: FindOption)
    requires Usable(g) && segs != [] && rest != []
    requires forall k :: 0 <= k < |segs + rest| ==> Segment((segs + rest)[k])
    requires var r := FindFcb(img, g, Join(segs), junk);
      r.ret >= 0 && r.fcb.Some? && !IsDirectory(r.fcb.value.metadata)
    ensures FindFcb(img, g, Join(segs + rest), junk).ret == -ENOENT
  {
    forall k | 0 <= k < |segs| ensures Segment(segs[k]) { assert segs[k] == (segs + rest)[k]; }
    SegmentsOfJoin(segs);
    SegmentsOfJoin(segs + rest);
    var l0 := Look(-1, junk, false, false);
    var l := Resolve(img, g, segs, l0, true);
    ResolveMatches(img, g, segs, l0, true);
    ResolveAppend(img, g, segs, rest, l0, true);
    var l1 := ResolveStep(img, g, l, rest[0], false);
    assert l1.stopped && l1.result < 0;
    ResolveMatches(img, g, rest[1..], l1, false);
  }

  /** Below a path that does not resolve nothing resolves either, when the
      uninitialised record holds a negative index. */
  lemma FindFcbBelowMissing(img: seq<byte>, g: Geometry, segs: seq<seq<byte>>, rest: seq<seq<byte>>,
                            junk: FindOption)
    requires Usable(g) && segs != [] && junk.index < 0
    requires forall k :: 0 <= k < |segs + rest| ==> Segment((segs + rest)[k])
    requires FindFcb(img, g, Join(segs), junk).ret < 0
    ensures FindFcb(img, g, Join(segs + rest), junk).ret == -ENOENT
  {
    forall k | 0 <= k < |segs| ensures Segment(segs[k]) { assert segs[k] == (segs + rest)[k]; }
    SegmentsOfJoin(segs);
    SegmentsOfJoin(segs + rest);
    var l0 := Look(-1, junk, false, false);
    var l := Resolve(img, g, segs, l0, true);
    ResolveMatches(img, g, segs, l0, true);
    ResolveAppend(img, g, segs, rest, l0, true);
    assert l.stopped;
    ResolveMatches(img, g, rest, l, false);
  }

  // ---------------------------------------------------------------------
  // is_directory_empty (utils.c:596-632)

  /** An entry that keeps a directory from being empty: before the end
      marker, its first byte is not '.', and it exists. */
  predicate Live(f: Fcb) { !IsEntryEnd(f) && f.filename[0] != DOT && IsEntryExists(f) }

  /** How the scan of one page ends. */
  datatype Verdict = SawEnd | SawLive | SawNeither

  /** The inner loop of is_directory_empty over the entries of a page. */
  function EmptyScan(dir: seq<Fcb>): Verdict {
    if dir == [] then SawNeither
    else if IsEntryEnd(dir[0]) then SawEnd
    else if dir[0].filename[0] != DOT && IsEntryExists(dir[0]) then SawLive
    else EmptyScan(dir[1..])
  }

  /** The cluster loop of is_directory_empty: 1 once the chain ends or an
      end marker is met, 0 at a live entry, `-EIO` for a page that cannot be
      read (a cluster without an offset included). The loop has no bound in
      the source; here it stops after `fuel` clusters. */
  function EmptyLoop(img: seq<byte>, g: Geometry, cur: u16, fuel: nat): int
    decreases fuel
  {
    if !InUse(cur) || fuel == 0 then 1
    else
      var off := ClusterOffset(g, cur);
      var n := g.sizeCluster / FCB_SIZE;
      if !Store.Fits(img, off, g.sizeCluster) then -EIO
      else match EmptyScan(Page(img, off, 0, n))
        case SawEnd => 1
        case SawLive => 0
        case SawNeither => EmptyLoop(img, g, NextCluster(img, g, cur), fuel - 1)
  }

  /** is_directory_empty(file). */
  function DirEmpty(img: seq<byte>, g: Geometry, dir: Fcb): int {
    EmptyLoop(img, g, dir.firstCluster, Bound(g))
  }

  /** Every page of the chain from `cur` can be read. */
  predicate Readable(img: seq<byte>, g: Geometry, cur: u16, fuel: nat)
    decreases fuel
  {
    !InUse(cur) || fuel == 0 ||
    (Store.Fits(img, ClusterOffset(g, cur), g.sizeCluster) && Readable(img, g, NextCluster(img, g, cur), fuel - 1))
  }

  /** The entries of the directory whose chain starts at `cur`, page after page. */
  function Listing(img: seq<byte>, g: Geometry, cur: u16, fuel: nat): seq<Fcb>
    requires Readable(img, g, cur, fuel)
    decreases fuel
  {
    if !InUse(cur) || fuel == 0 then []
    else
      Page(img, ClusterOffset(g, cur), 0, g.sizeCluster / FCB_SIZE) +
      Listing(img, g, NextCluster(img, g, cur), fuel - 1)
  }

  /** Some entry of `s` is live and no end marker comes before it. */
  predicate LiveBeforeEnd(s: seq<Fcb>) {
    exists k :: 0 <= k < |s| && Live(s[k]) && forall i :: 0 <= i < k ==> !IsEntryEnd(s[i])
  }

  predicate HasEnd(s: seq<Fcb>) {
    exists k :: 0 <= k < |s| && IsEntryEnd(s[k])
  }

  /** The scan of a page reports a live entry exactly when one comes before
      any end marker, and an end marker exactly when one comes first. */
  lemma {:induction false} EmptyScanSpec(p: seq<Fcb>)
    ensures var v := EmptyScan(p);
      (v == SawLive <==> LiveBeforeEnd(p)) &&
      (v == SawEnd <==> !LiveBeforeEnd(p) && HasEnd(p))
  {
    if p != [] {
      var q := p[1..];
      assert p == [p[0]] + q;
      LiveBeforeEndHead(p[0], q);
      if !IsEntryEnd(p[0]) && !Live(p[0]) {
        EmptyScanSpec(q);
        LiveBeforeEndCons(p[0], q);
      }
    }
  }

  /** A first entry that is an end marker hides the rest; a live one is found. */
  lemma LiveBeforeEndHead(e: Fcb, q: seq<Fcb>)
    ensures IsEntryEnd(e) ==> HasEnd([e] + q) && !LiveBeforeEnd([e] + q)
    ensures Live(e) ==> LiveBeforeEnd([e] + q)
  {
    var p := [e] + q;
    if IsEntryEnd(e) {
      assert IsEntryEnd(p[0]);
      forall k | 0 <= k < |p| && Live(p[k]) ensures exists i :: 0 <= i < k && IsEntryEnd(p[i]) {
        assert k > 0;
      }
    }
    if Live(e) { assert Live(p[0]); }
  }

  /** An entry that is neither live nor an end marker changes nothing. */
  lemma LiveBeforeEndCons(e: Fcb, q: seq<Fcb>)
    requires !IsEntryEnd(e) && !Live(e)
    ensures LiveBeforeEnd([e] + q) <==> LiveBeforeEnd(q)
    ensures HasEnd([e] + q) <==> HasEnd(q)
  {
    var p := [e] + q;
    if LiveBeforeEnd(p) {
      var k :| 0 <= k < |p| && Live(p[k]) && forall i :: 0 <= i < k ==> !IsEntryEnd(p[i]);
      assert k > 0 && p[k] == q[k - 1];
      forall i | 0 <= i < k - 1 ensures !IsEntryEnd(q[i]) { assert q[i] == p[i + 1]; }
    }
    if LiveBeforeEnd(q) {
      var k :| 0 <= k < |q| && Live(q[k]) && forall i :: 0 <= i < k ==> !IsEntryEnd(q[i]);
      assert Live(p[k + 1]);
      forall i | 0 <= i < k + 1 ensures !IsEntryEnd(p[i]) { if i > 0 { assert p[i] == q[i - 1]; } }
    }
    if HasEnd(p) {
      var k :| 0 <= k < |p| && IsEntryEnd(p[k]);
      assert k > 0 && p[k] == q[k - 1];
    }
    if HasEnd(q) {
      var k :| 0 <= k < |q| && IsEntryEnd(q[k]);
      assert p[k + 1] == q[k];
    }
  }

  /** Live-before-end over two pages: in the first, or in the second when
      the first holds no end marker. */
  lemma LiveBeforeEndConcat(p: seq<Fcb>, q: seq<Fcb>)
    ensures LiveBeforeEnd(p + q) <==> LiveBeforeEnd(p) || (!HasEnd(p) && LiveBeforeEnd(q))
  {
    var s := p + q;
    forall k | 0 <= k < |p| && Live(s[k]) && (forall i :: 0 <= i < k ==> !IsEntryEnd(s[i]))
      ensures LiveBeforeEnd(p)
    {
      assert Live(p[k]);
      forall i | 0 <= i < k ensures !IsEntryEnd(p[i]) { assert s[i] == p[i]; }
    }
    if LiveBeforeEnd(s) && !LiveBeforeEnd(p) {
      var k :| 0 <= k < |s| && Live(s[k]) && forall i :: 0 <= i < k ==> !IsEntryEnd(s[i]);
      assert k >= |p|;
      assert !HasEnd(p) by {
        forall i | 0 <= i < |p| ensures !IsEntryEnd(p[i]) { assert s[i] == p[i]; }
      }
      assert Live(q[k - |p|]);
      forall i | 0 <= i < k - |p| ensures !IsEntryEnd(q[i]) { assert s[i + |p|] == q[i]; }
    }
    if LiveBeforeEnd(p) {
      var k :| 0 <= k < |p| && Live(p[k]) && forall i :: 0 <= i < k ==> !IsEntryEnd(p[i]);
      assert s[k] == p[k];
      forall i | 0 <= i < k ensures !IsEntryEnd(s[i]) { assert s[i] == p[i]; }
    }
    if !HasEnd(p) && LiveBeforeEnd(q) {
      var k :| 0 <= k < |q| && Live(q[k]) && forall i :: 0 <= i < k ==> !IsEntryEnd(q[i]);
      assert s[k + |p|] == q[k];
      forall i | 0 <= i < k + |p| ensures !IsEntryEnd(s[i]) {
        if i < |p| { assert s[i] == p[i]; } else { assert s[i] == q[i - |p|]; }
      }
    }
  }

  /** is_directory_empty against the listing of the directory: when every
      page can be read it returns 0 exactly when a live entry comes before
      the first end marker, and 1 otherwise. */
  lemma DirEmptySpec(img: seq<byte>, g: Geometry, dir: Fcb)
    requires Readable(img, g, dir.firstCluster, Bound(g))
    ensures DirEmpty(img, g, dir) == if LiveBeforeEnd(Listing(img, g, dir.firstCluster, Bound(g))) then 0 else 1
  {
    EmptyLoopSpec(img, g, dir.firstCluster, Bound(g));
  }

  lemma {:induction false} EmptyLoopSpec(img: seq<byte>, g: Geometry, cur: u16, fuel: nat)
    requires Readable(img, g, cur, fuel)
    ensures EmptyLoop(img, g, cur, fuel) == if LiveBeforeEnd(Listing(img, g, cur, fuel)) then 0 else 1
    decreases fuel
  {
    if InUse(cur) && fuel > 0 {
      var off := ClusterOffset(g, cur);
      var n := g.sizeCluster / FCB_SIZE;
      var p := Page(img, off, 0, n);
      var rest := Listing(img, g, NextCluster(img, g, cur), fuel - 1);
      assert Listing(img, g, cur, fuel) == p + rest;
      EmptyScanSpec(p);
      LiveBeforeEndConcat(p, rest);
      EmptyLoopSpec(img, g, NextCluster(img, g, cur), fuel - 1);
    }
  }

  /** A page that cannot be read before an end marker is found makes
      is_directory_empty return `-EIO`, which its callers read as true. */
  lemma DirEmptyResults(img: seq<byte>, g: Geometry, dir: Fcb)
    ensures var r := DirEmpty(img, g, dir); r == 0 || r == 1 || r == -EIO
  {
    EmptyLoopResults(img, g, dir.firstCluster, Bound(g));
  }

  lemma {:induction false} EmptyLoopResults(img: seq<byte>, g: Geometry, cur: u16, fuel: nat)
    ensures var r := EmptyLoop(img, g, cur, fuel); r == 0 || r == 1 || r == -EIO
    decreases fuel
  {
    if InUse(cur) && fuel > 0 {
      EmptyLoopResults(img, g, NextCluster(img, g, cur), fuel - 1);
    }
  }

  // ---------------------------------------------------------------------
  // remove_file (utils.c:405-413)

  /** The image after an operation and the status it returns. */
  datatype Status = Status(img: seq<byte>, ret: int)

  /** The entry with its first name byte set to 0xE5. */
  function Deleted(f: Fcb): (d: Fcb)
    ensures d.filename[0] == DELETED_MARK && d.filename[1..] == f.filename[1..]
    ensures d.(filename := f.filename) == f
  {
    f.(filename := [DELETED_MARK] + f.filename[1..])
  }

  /** remove_file(file, offset_fcb): release the chain (which frees only its
      head), then write the entry back marked deleted. */
  function RemoveFile(img: seq<byte>, g: Geometry, f: Fcb, off: int): Status {
    var img1 := Release(img, g, f.firstCluster);
    if !Store.Fits(img1, off, FCB_SIZE) then Status(img1, -EIO)
    else Status(Store.Write(img1, off, EncodeFcb(Deleted(f))), 0)
  }

  /** remove_file returns 0 exactly when the entry's bytes lie in the image;
      then they read back as the deleted entry. An entry outside the FAT
      leaves every FAT slot but the head's as it was, and the head's slot
      reads FREE when it has one. */
  lemma RemoveFileEffect(img: seq<byte>, g: Geometry, f: Fcb, off: int)
    requires off + FCB_SIZE <= g.offsetFat || g.offsetFat + g.sizeFat <= off
    ensures var r := RemoveFile(img, g, f, off);
      |r.img| == |img| &&
      (r.ret == 0 || r.ret == -EIO) &&
      (r.ret == 0 <==> Store.Fits(img, off, FCB_SIZE)) &&
      (r.ret == 0 ==> Store.Read(r.img, off, FCB_SIZE) == EncodeFcb(Deleted(f))) &&
      (forall d: u16 :: d != f.firstCluster ==> NextCluster(r.img, g, d) == NextCluster(img, g, d)) &&
      (InUse(f.firstCluster) && Addressable(g, f.firstCluster) && SlotFits(img, g, f.firstCluster) ==>
        NextCluster(r.img, g, f.firstCluster) == CLUSTER_FREE)
  {
    var c := f.firstCluster;
    var img1 := Release(img, g, c);
    ReleaseFreesOnlyHead(img, g, c, c);
    forall d: u16 ensures NextCluster(RemoveFile(img, g, f, off).img, g, d) == NextCluster(img1, g, d) {
      if Store.Fits(img1, off, FCB_SIZE) {
        NextAfterWriteOutsideFat(img1, g, off, EncodeFcb(Deleted(f)), d);
      }
    }
    forall d: u16 | d != c ensures NextCluster(img1, g, d) == NextCluster(img, g, d) {
      ReleaseFreesOnlyHead(img, g, c, d);
    }
    if Store.Fits(img1, off, FCB_SIZE) {
      Store.ReadAfterWrite(img1, off, EncodeFcb(Deleted(f)));
    }
  }
}
