# FAT16 engine: a verified model

This project models the engine of a small FUSE file system that serves a
FAT16 disk image. The engine has four parts:

- **Chain manager.** It reads and writes the 16-bit links of the first FAT copy: follow a link, count a chain, claim free clusters, zero them, link them to a file, shrink a chain and release it.
- **Directory code.** It converts the 32-byte directory entry (FCB) to and from its `NAME.EXT` form and walks the root directory and sub-directory chains with three visitors: find a name, find a free slot, list names. It also resolves slash-separated paths, checks whether a directory is empty and deletes an entry.
- **File data.** It maps a byte range of a file onto its cluster chain for reading, writing and truncation.
- **Operations.** `getattr`, `read`, `write`, `create`, `truncate`, `rename`, `unlink`, `mkdir` and `rmdir` combine the parts above, each with its own order of error checks.

The model works at two levels.

**Specification level (pure).** Each behaviour is a function from an image
(`seq<byte>`) and its inputs to a result and a new image. The modules are:

| module | what it covers |
|---|---|
| `Layout` | packed records and constants of `fat16.h`, little-endian codecs |
| `Store` | byte-range reads and writes on an image |
| `Geometry` | the derivation in `fat16_init` |
| `Fat` and `Alloc` | the chain manager |
| `Growth` | what `file_new_cluster` and a growing `adjust_cluster_count` do to the chain and the data |
| `NoSpace` | when `file_new_cluster`, `adjust_cluster_count` and `write_file` report no space |
| `Names` | names and paths |
| `Directory` | walkers, visitors, `find_fcb`, emptiness check, `remove_file` |
| `FileData` | `read_file`, `write_file`, `_truncate` |
| `Fs` | the nine operations |

The lemmas state what the source promises about these functions.

**Imperative level.** The class `Volume.Volume` holds the image as an
`array<byte>`, the boot record and the geometry that `fat16_init` derives.
Its methods `IoRead` and `IoWrite` model `io_read` and `io_write`. The
modules `FatImpl`, `DirectoryImpl`, `FileDataImpl` and `FsImpl` run the
source's loops over that array. Each such method is proved to leave the
array, and to return, exactly what the specification function of the same
name computes. Everything proved about the specification functions therefore
holds for the methods.

Two rules apply throughout:

- **I/O.** A byte range is transferred only when it lies wholly inside the image. Otherwise the count is 0, which keeps every `-EIO` branch of the source reachable.
- **Defects are modelled as written.** 
  - `release_cluster` frees only the head cluster.
  - A shrinking `adjust_cluster_count` writes FREE, not END, into the kept tail.
  - A growing `adjust_cluster_count` tests only for END, so it answers 0 when `file_new_cluster` reports a failed write.
  - The root walker tests `dir[i]` (the page index) where `dir[j]` is meant.
  - `read_file` lowers the remaining size by a whole cluster after a partial first cluster.
  - A transfer of at most one cluster that starts inside a cluster is done as one contiguous I/O even when it crosses into the next cluster.
  - The free-slot visitor never sets `index` at the end of a walk.
  - A shrinking `_truncate` does not write the FCB back.

Where the source leaves a `uint16_t` or `uint32_t` to wrap, the model wraps
it explicitly:

- `-EIO` returned as a `uint16_t` is `EIO_U16`.
- The new file size is taken mod 2^32.
- A loop index stored into a `uint16_t` goes through `Trunc16`.

## Model

| member | source | states |
|---|---|---|
| Layout.FlagsAreDistinctSingleBits | fat16.h:58-64 | READONLY, HIDDEN, SYSTEM, VOLUME_LABEL, DIRECTORY and ARCHIVE are bits 0 to 5 respectively, each a single distinct bit; READ_WRITE sets none |
| Layout.ClusterConstantsOrdered | fat16.h:70-73 | FREE < MIN <= MAX < END; END and FREE are never in use, and no in-use cluster equals either |
| Layout.NameLengths | fat16.h:53-55 | MAX_FILENAME = 8, MAX_EXTNAME = 3, MAX_FULLNAME = 12 |
| Layout.U16Bytes | fat16.h:47-49 | the little-endian form of a 16-bit field is 2 bytes |
| Layout.U16RoundTrip | fat16.h:47-49 | decoding the 2 bytes of a 16-bit value gives the value back |
| Layout.U16BytesRoundTrip | fat16.h:47-49 | encoding the value of any 2 bytes gives those bytes back |
| Layout.U32Bytes | fat16.h:50 | the little-endian form of a 32-bit field is 4 bytes |
| Layout.U32RoundTrip | fat16.h:50 | decoding the 4 bytes of a 32-bit value gives the value back |
| Layout.U32BytesRoundTrip | fat16.h:50 | encoding the value of any 4 bytes gives those bytes back |
| Layout.EncodeFcb | fat16.h:42-51 | a packed FCB is exactly 32 bytes |
| Layout.FcbFieldOffsets | fat16.h:42-51 | bytes 0-7 are the name, 8-10 the extension, 11 the metadata, 12-21 reserved, 22-23 the time, 24-25 the date, 26-27 the first cluster and 28-31 the size, little-endian |
| Layout.FcbRoundTrip | fat16.h:42-51 | unpacking a packed FCB gives back every field |
| Layout.FcbBytesRoundTrip | fat16.h:42-51 | packing the FCB unpacked from any 32 bytes gives those bytes back |
| Layout.EncodeBpb | fat16.h:8-21 | a packed BPB is 25 bytes |
| Layout.BpbRoundTrip | fat16.h:8-21 | unpacking a packed BPB gives back every field |
| Layout.EncodeEbpb | fat16.h:23-30 | a packed EBPB is 26 bytes |
| Layout.DecodeEbpb | fat16.h:23-30 | unpacking 26 bytes gives an 11-byte label and an 8-byte type |
| Layout.EbpbRoundTrip | fat16.h:23-30 | unpacking a packed EBPB gives back every field |
| Layout.EncodeBoot | fat16.h:32-39 | a packed boot record is 512 bytes |
| Layout.DecodeBoot | fat16.h:32-39 | unpacking 512 bytes gives a well-formed boot record |
| Layout.BootFields | fat16.h:32-39 | the boot record is 3 + 8 bytes, then the 25-byte BPB, the 26-byte EBPB, 448 bytes of code and the 2-byte signature, in that order |
| Layout.BootLayout | fat16.h:8-39 | the BPB sits at bytes 11-35 and the EBPB at 36-61, and `bytes_per_sector` at bytes 11-12 |
| Layout.BootRoundTrip | fat16.h:32-39 | unpacking a packed boot record gives back every field |
| Store.Read | io.c:16-22 | a read of `n` bytes at `off` yields `n` bytes, the image's bytes from `off` on |
| Store.Count | io.c:16-33 | the count equals the length asked for exactly when the range lies inside the image (or nothing was asked for) |
| Store.Write | io.c:24-33 | a write keeps the image's length, puts the data at `off` when the range fits and changes no other byte |
| Store.ReadAfterWrite | io.c:16-33 | reading back a range just written gives the data written |
| Store.ReadAfterWriteElsewhere | io.c:16-33 | a write leaves any range it does not overlap unchanged |
| Geometry.Derive | fat16.c:42-47 | `offset_fat = reserved*bps`, `size_fat = bps*spf`, the FAT copies, the root directory and the data region follow one another, `size_cluster = spc*bps` and a cluster holds exactly `size_cluster/32` whole entries |
| Geometry.DeriveWellFormed | fat16.c:42-47 | non-zero sector sizes and at least one FAT give a geometry with a non-zero cluster size whose regions do not overlap |
| Volume.Volume.Init | fat16.c:32-47 | mounting reads the boot record from the first 512 bytes and sets the six geometry globals by the formulas of `fat16_init` |
| Volume.Volume.IoRead | io.c:16-22 | io_read returns the image's bytes and the full count when the range fits, a count of 0 otherwise |
| Volume.Volume.IoWrite | io.c:24-33 | io_write copies the data into the array byte by byte when the range fits, and returns the count |
| Fat.NextClusterReadsSlot | utils.c:85-97 | for an in-use cluster below `size_fat/2` whose slot can be read, next_cluster returns the little-endian value stored in that slot |
| Fat.NextClusterOutside | utils.c:85-107 | next_cluster returns END for a cluster outside [MIN, MAX] or at or beyond `size_fat/2`; get_cluster_offset is non-negative exactly for the other clusters, and equals `offset_data + size_cluster*(c-2)` for them |
| Fat.NextAfterWriteSlot | utils.c:85-97 | after a slot write, the written slot reads the new link and every other slot reads as before |
| Fat.NextAfterWriteOutsideFat | utils.c:85-97 | a write outside the first FAT copy changes no link |
| Fat.WriteSlotInsideFat | utils.c:393 | a slot write changes nothing outside the first FAT copy |
| Fat.ChainMembers | utils.c:415-424 | the chain from a cluster holds at most `fuel` clusters; its k-th member is in use and is the k-th cluster reached by following links; it ends on a value that is not in use unless the fuel ran out |
| Fat.ChainFuel | utils.c:415-424 | once a chain ends, more fuel gives the same chain |
| Fat.ChainSuffix | utils.c:415-424 | the chain from the k-th cluster is the chain's suffix from position k |
| Fat.ChainDistinct | utils.c:415-424 | a chain that ends visits no cluster twice |
| Fat.ChainLinks | utils.c:415-424 | each member of a chain but the last has an addressable slot that links to the next member |
| Fat.WalkStep | utils.c:571-575 | advancing k+1 links is advancing k links and then one more |
| Fat.EndsWithinBound | utils.c:415-424 | a chain that ends within some fuel ends within the bound `size_fat/2 + 1` and is the same chain |
| Fat.ReleaseFreesOnlyHead | utils.c:389-399 | release_cluster(c), for c in use, leaves FREE in c's slot and changes no other slot; it does nothing for a c not in use |
| Fat.ReleaseStopsAfterHead | utils.c:391-397 | after the first write, the loop re-reads the slot it just cleared, which is not in use, so it stops |
| Fat.ReleaseLeaksTail | utils.c:389-399 | on a chain of two or more clusters, every cluster after the head keeps its link, so the tail is never freed |
| Fat.ClusterCountIsChainLength | utils.c:415-424 | get_cluster_count is at most the bound, counts only in-use clusters and stops on the first one not in use; it is 0 for END and FREE |
| Fat.FirstFree | utils.c:498-505 | the slot the inner loop stops at lies between its start and `size_fat/2` |
| Fat.FirstFreeIsFirst | utils.c:498-505 | the loop stops at a slot that reads FREE and names a data cluster, and every slot before it does not |
| Fat.FileNewCluster | utils.c:446-488 | file_new_cluster changes at most the FCB's first cluster, and nothing on the FCB when no space was found; `Growth.FileNewClusterEffect` states its effect on the image and `NoSpace.FileNewClusterEnd` when it answers END |
| Fat.Adjust | utils.c:562-594 | adjust_cluster_count changes at most the FCB's first cluster and returns 0, -EIO or -ENOSPC; its outcomes are stated by `Fat.AdjustShrinks`, `Growth.AdjustGrows`, `Growth.AdjustIgnoresEio`, `NoSpace.AdjustNoSpace` and `NoSpace.AdjustNoSpaceOnlyGrowing` |
| Fat.AdjustShrinks | utils.c:562-586 | on a chain that ends, shrinking to `n` clusters leaves get_cluster_count equal to `n`: the `n`-th cluster's slot reads FREE, or the FCB's first cluster is END when `n` is 0 |
| Growth.DataAfterFat | utils.c:100-107 | a data cluster's offset lies past the end of the first FAT copy |
| Growth.ClustersApart | utils.c:100-107 | two different data clusters occupy disjoint byte ranges |
| Growth.ChainKept | utils.c:415-424 | a chain whose members keep their links keeps its members and whether it ends |
| Growth.TailIsLast | utils.c:470-475 | the walk of file_new_cluster to the last cluster stops on the last member of the file's chain |
| Growth.ZeroOne | utils.c:462-463 | zeroing one data cluster changes no link, makes that cluster read as zeros and leaves every other data cluster's bytes alone |
| Growth.ZeroRound | utils.c:461-468 | zeroing the head of the list and then filling the rest fills the whole list |
| Growth.FilledStep | utils.c:461-468 | one round of the zero-fill loop followed by the rest fills the whole list |
| Growth.ZeroFillEffect | utils.c:461-468 | over the distinct clusters of a linked list, the zero-fill loop changes no link, succeeds exactly when every cluster lies inside the image, then leaves each of them reading as zeros, and keeps the bytes of every other data cluster |
| Growth.NewChainZeroed | utils.c:448-468 | with `count` claimable slots, get_free_cluster_num and the zero fill leave a linked chain of `count` formerly claimable clusters, change no other link, and zero every member when the fill succeeds, which it does when the image covers the data region |
| Growth.Join | utils.c:478 | writing the new head into the slot of the old last cluster joins the old chain and the new one into one linked list |
| Growth.Appended | utils.c:470-485 | after that write the file's chain is the old chain followed by the new one, the new chain still reads as zeros, and only the old last cluster's slot changed |
| Growth.ReleaseKeepsChain | utils.c:463-480 | the failure paths release the new head, which leaves the file's chain as it was |
| Growth.FileNewClusterEffect | utils.c:446-485 | with `count` claimable slots and a file chain that ends and holds no cluster reading FREE, file_new_cluster never answers END; on -EIO (truncated to 16 bits) the FCB and the file's chain are unchanged, and that cannot happen when the image covers the FAT and the data region; otherwise it answers the head of `count` new zeroed clusters that were claimable, the file's chain is the old one followed by them (a file with no cluster gets the head as its first cluster), and no other link changes |
| Growth.GrowLength | utils.c:446-488 | for such a file, file_new_cluster never answers END; a failed write keeps the FCB and the chain's length, a success adds `count` clusters to it, and on a covering image the write does not fail |
| Growth.AdjustGrows | utils.c:587-591 | growing such a file answers 0; the chain then has the new length, or file_new_cluster failed a write and the FCB and the count are unchanged; on an image covering the FAT and the data region the chain always has the new length |
| Growth.AdjustIgnoresEio | utils.c:587-591 | when file_new_cluster fails a write, adjust_cluster_count still answers 0 with the FCB unchanged and fewer clusters than asked for, because it tests only for END |
| Growth.ShrinkLeavesTailClaimable | utils.c:577-586 | a successful shrink to `n > 0` clusters leaves a chain of `n` clusters whose last one reads FREE and is claimable, so the allocator may hand a cluster of the file out again |
| Growth.CutTail | utils.c:570-586 | after the cut, the kept last cluster is a data cluster whose slot reads FREE, and it is the last of the `n` members of the chain |
| NoSpace.FileNewClusterEnd | utils.c:448-450 | file_new_cluster answers END exactly when it asks for no cluster or for more than are claimable |
| NoSpace.AdjustNoSpace | utils.c:587-590 | a growth answers -ENOSPC exactly when more clusters are missing than are claimable, and then leaves the FCB and everything outside the FAT as they were, with at most one formerly claimable slot still claimable |
| NoSpace.AdjustNoSpaceOnlyGrowing | utils.c:565-586 | keeping or shrinking the count never answers -ENOSPC |
| NoSpace.WriteNoSpace | utils.c:318-339 | a write_file answers -ENOSPC exactly when it is non-empty, does not overflow, needs more clusters than the chain has, and more are missing than are claimable |
| NoSpace.WriteNoSpaceIsEnd | utils.c:336-385 | past its first two checks, write_file answers -ENOSPC exactly when the extension step answers END, since the rest answers -EIO or the length |
| NoSpace.ExtendEnd | utils.c:336-339 | the extension step answers END exactly when the chain is shorter than the write needs and more clusters are missing than are claimable |
| Alloc.LinkedIsChain | utils.c:490-517 | a list of clusters whose slots link each to the next and the last to END is the chain from its head |
| Alloc.FirstFreeIsMin | utils.c:498-505 | the inner loop finds the least claimable slot, or runs to the end exactly when none is claimable |
| Alloc.ClaimSlot | utils.c:499-503 | claiming a slot stores the previous head in it, leaves every other link as it was and removes exactly that slot from the claimable ones |
| Alloc.RoundStep | utils.c:496-514 | one round claims the least free slot, links it to the chain built so far and becomes the new head |
| Alloc.RoundsSucceed | utils.c:496-514 | with at least `count` claimable slots, the rounds build the chain the whole allocation promises |
| Alloc.RoundsGiveUp | utils.c:507-511 | with fewer claimable slots than `count`, the rounds end by releasing the head and returning END |
| Alloc.GiveUpLeaksAllButHead | utils.c:507-511 | giving up frees only the head of the partial chain: afterwards at most one slot is claimable, and only slots that were claimable at the start can be |
| Alloc.FreeClusterNumSucceeds | utils.c:490-517 | with `0 < count` and at least `count` claimable slots, get_free_cluster_num returns a chain of exactly `count` distinct clusters that were claimable, running from the last claimed down to the first claimed, which holds END; no claimable slot below the head is left over, no other link changes and nothing outside the FAT changes |
| Alloc.FreeClusterNumFails | utils.c:490-517 | with fewer than `count` claimable slots it returns END; no slot becomes claimable that was not before, and at most one slot is claimable afterwards, so every slot claimed before giving up stays allocated except at most one |
| Alloc.FreeClusterNumEnd | utils.c:490-517 | it never returns -EIO when every slot index fits in 16 bits, and returns END exactly when `count` is 0 or too few slots are claimable |
| Alloc.BuiltChain | utils.c:496-514 | the chain built so far is the chain of the image from its head, and every unclaimed slot lies above the head |
| Names.IndexOf | utils.c:63-66 | the index where the scan stops holds the byte sought, or is the length |
| Names.IndexOfFirst | utils.c:63-66 | no byte before that index is the byte sought |
| Names.LastIndexOf | fat16.c:232 | strrchr finds the last occurrence: nothing equal lies after it, and -1 means none |
| Names.CStr | utils.c:200 | a C string is the bytes before the first NUL |
| Names.FullnameShape | utils.c:58-83 | get_filename keeps the name up to its first space, then adds a dot and the extension up to its first space, with no dot when the extension starts with a space; the result has no space; its terminating NUL goes at index 12 exactly when neither field has a space |
| Names.Padded | fat16.c:295-300 | a name padded to `n` starts with the name and is filled with spaces |
| Names.NewEntry | fat16.c:294-301 | a new entry has first cluster END, size 0 and the metadata given |
| Names.Renamed | fat16.c:436-441 | a renamed entry differs from the original in its name and extension only |
| Names.FullnameOfPadded | utils.c:58-83 | a name and extension with no spaces, padded into an entry, read back as their dotted form |
| Names.NewEntryFound | utils.c:188-209 | an entry made from a name and extension without space or NUL is matched, ignoring case, by their dotted form |
| Names.NoNulCStr | utils.c:200 | a byte string without NUL is its own C string |
| Names.AvailableNameReadsBack | utils.c:426-444 | an accepted directory name has no dot, slash, space or NUL, and the entry made from it reads back as that name |
| Names.SegmentsAreSegments | utils.c:12-39 | every segment strtok yields is non-empty and has no slash |
| Names.SegmentsOfJoin | utils.c:12-39 | splitting the path joined from segments gives those segments back |
| Names.SplitLast | fat16.c:232-236 | the leaf after the last slash has no slash |
| Names.SplitLastJoins | fat16.c:232-236 | parent, slash and leaf put together give the path back |
| Names.SplitExt | fat16.c:279-288 | the extension after the last dot has no dot |
| Names.SplitExtJoins | fat16.c:279-288 | base, dot and extension put together give the name back, and a name without a dot is its own base |
| Directory.Page | utils.c:122 | a page read holds one entry per index asked for |
| Directory.Buffer | utils.c:122 | the buffer of one cluster holds `fcb_per_cluster` entries |
| Directory.FindScan | utils.c:128-133 | a page scan with the find visitor leaves the record as it was or records a match, and when it stops on a callback it has hit a matching entry or the end |
| Directory.RootLoopKeeps | utils.c:121-143 | any invariant every page scan of the root walker keeps holds when the walk ends, whose status is 0 or -ENODATA |
| Directory.SubLoopKeeps | utils.c:157-185 | the same for the sub-directory walker, whose status is 0, -ESPIPE or -ENODATA |
| Directory.FindInRoot | utils.c:109-144 | a find over the root leaves the record as it was on an error and otherwise as it was or on a matching entry |
| Directory.FindInSub | utils.c:146-186 | a find in a sub-directory returns -ENOTDIR for an entry that is not a directory, and on success the record names a matching entry or the end |
| Directory.FreeScan | utils.c:230-247 | a page scan with the free-slot visitor stops on a slot whose first byte is 0x00 or 0xE5 |
| Directory.FreeInRoot | utils.c:109-144 | a free-slot search over the root records a free slot, marks the end with `pos = -1`, or leaves the record as it was |
| Directory.FreeInSub | utils.c:146-186 | a free-slot search in a sub-directory does the same, leaving `index` untouched at the end |
| Directory.ListScan | utils.c:211-228 | the readdir callback over one page leaves the search record as it was and only appends names of at most 12 bytes |
| Directory.ListInRoot | utils.c:109-144 | a readdir walk of the root returns 0 or -ENODATA, keeps the search record and only appends names of at most 12 bytes |
| Directory.ListInSub | utils.c:146-186 | a readdir walk of a sub-directory returns -ENOTDIR for an entry that is not a directory, otherwise 0, -ESPIPE or -ENODATA, with the same guarantees on the listing |
| Directory.RootProbeStopsEarly | utils.c:129 | the root walker stops on the page-index probe `dir[i]` being an end marker even though no entry matched |
| Directory.ResolveMatches | utils.c:20-41 | resolving segment by segment stops on an error or a miss, and otherwise ends on an entry matching the last segment |
| Directory.FindFcbNoSegments | utils.c:8-56 | a path with no segment gives -ENOENT |
| Directory.FindFcbFound | utils.c:8-56 | on success find_fcb returns the offset of an entry whose name matches the last segment, ignoring case, and otherwise -ENOENT; the stale record of a stopped root probe is the only exception |
| Directory.ResolveAppend | utils.c:20-41 | resolving a longer path is resolving its prefix and then the rest |
| Directory.FindFcbBelowFile | utils.c:30-33 | a path that continues below an entry that is not a directory gives -ENOENT |
| Directory.FindFcbBelowMissing | utils.c:35-36 | a path that continues below a missing entry gives -ENOENT |
| Directory.EmptyScanSpec | utils.c:615-625 | the page loop of is_directory_empty reports a live entry exactly when one comes before any end marker, and an end marker exactly when it comes first |
| Directory.LiveBeforeEndConcat | utils.c:608-628 | a live entry comes before the end in two pages read one after the other exactly when it does in the first, or the first has no end and it does in the second |
| Directory.DirEmptySpec | utils.c:596-632 | when every page can be read, is_directory_empty returns 0 exactly when some entry before the end marker exists and does not start with '.', and 1 otherwise |
| Directory.DirEmptyResults | utils.c:596-632 | is_directory_empty returns 0, 1 or -EIO |
| Directory.Deleted | utils.c:407 | deleting sets the first name byte to 0xE5 and changes nothing else |
| Directory.RemoveFileEffect | utils.c:405-413 | remove_file frees the head of the file's chain, writes the entry back with 0xE5 and returns 0 exactly when the entry fits, or -EIO |
| DirectoryImpl.FullNameOverflows | utils.c:58-83 | for the entry `README12.TXT` the NUL is stored at index 12, one past the 12-byte buffer of the callbacks |
| DirectoryImpl.GetFilename | utils.c:58-83 | into a 13-byte buffer, get_filename writes the dotted name followed by NUL |
| DirectoryImpl.SpaceIndex | utils.c:63-76 | the scan for a space returns the index of the first space in the field, or its length |
| DirectoryImpl.ScanEntries | utils.c:128-133 | the inner loop of the walkers computes the page scan |
| DirectoryImpl.ReadPage | utils.c:122-125 | reading a page gives its entries, or nothing when the read is short |
| DirectoryImpl.TraverseRootDir | utils.c:109-144 | traverse_root_dir computes the root walk |
| DirectoryImpl.TraverseSubDir | utils.c:146-186 | traverse_sub_dir computes the sub-directory walk |
| DirectoryImpl.FindFcb | utils.c:8-56 | find_fcb computes the path resolution |
| DirectoryImpl.ScanForLive | utils.c:615-625 | the page loop of is_directory_empty computes its verdict |
| DirectoryImpl.IsDirectoryEmpty | utils.c:596-632 | is_directory_empty computes its result |
| DirectoryImpl.RemoveFile | utils.c:405-413 | remove_file releases the chain's head and writes the deleted entry |
| FatImpl.NextCluster | utils.c:85-97 | next_cluster over the array |
| FatImpl.WriteSlot | utils.c:393 | a slot write returns 2 exactly when the slot fits |
| FatImpl.ClusterCount | utils.c:415-424 | the counting loop computes get_cluster_count, at most the bound |
| FatImpl.ReleaseCluster | utils.c:389-399 | the release loop computes release_cluster |
| FatImpl.FindFreeSlot | utils.c:498-505 | the inner loop finds the first claimable slot |
| FatImpl.ClaimRound | utils.c:497-513 | one round claims that slot, gives up or fails |
| FatImpl.GetFreeClusterNum | utils.c:490-517 | the rounds compute get_free_cluster_num |
| FatImpl.ZeroFill | utils.c:461-468 | the zero-fill loop leaves the image and the success flag `Fat.ZeroFill` gives, whose effect `Growth.ZeroFillEffect` states |
| FatImpl.Tail | utils.c:470-475 | the walk returns `Fat.Tail`, the last member of a chain that ends (`Growth.TailIsLast`) |
| FatImpl.FileNewCluster | utils.c:446-488 | file_new_cluster leaves the image, the FCB and the answer of `Fat.FileNewCluster`, whose effect `Growth.FileNewClusterEffect` states |
| FatImpl.AdjustClusterCount | utils.c:562-594 | adjust_cluster_count with its walk over `pre` and `cur` leaves the image, the FCB and the status of `Fat.Adjust`: a shrink as `Fat.AdjustShrinks` states, a growth as `Growth.AdjustGrows` and `NoSpace.AdjustNoSpace` state |
| FileData.ReadSeek | utils.c:262-279 | the seek ends inside a cluster |
| FileData.ReadSeekWithin | utils.c:262-279 | a successful seek stops on the cluster `offset / size_cluster` links down the chain, at `offset mod size_cluster` |
| FileData.ReadRunLength | utils.c:285-306 | the copy loop keeps the bytes read so far, and on success its count is what was asked for less the part of the first cluster skipped |
| FileData.ReadFileZero | utils.c:250-260 | read_file returns 0 exactly when `offset >= size` or `size == 0` |
| FileData.ReadFileLength | utils.c:250-311 | read_file clamps the length to the file and, unless an I/O fails, returns it, less the skipped part of the first cluster when the length exceeds one cluster |
| FileData.ReadFileBound | utils.c:250-311 | read_file never returns more than `size` or than `fcb.size - offset`, and returns exactly the clamped length when the offset is cluster-aligned or the length is at most one cluster |
| FileData.WriteSeek | utils.c:349-357 | the seek ends inside a cluster |
| FileData.WriteSeekIsWalk | utils.c:349-357 | the seek stops `offset / size_cluster` links down the chain at `offset mod size_cluster` |
| FileData.WriteRun | utils.c:359-377 | the copy loop returns -EIO or the whole length and keeps the image's length |
| FileData.Extend | utils.c:330-340 | extending changes at most the first cluster, nothing when no space was found, and nothing when the chain is long enough |
| FileData.WriteDataOutcome | utils.c:349-385 | after the seek and copy, write_file writes the FCB back last and returns the length, or -EIO |
| FileData.WriteFileOutcome | utils.c:315-386 | write_file returns 0 for no data, -EINVAL on offset overflow, -ENOSPC with the FCB unchanged (exactly when too few slots are claimable, by `NoSpace.WriteNoSpace`), and on success sets the size to the larger of the old size and the end of the write, writes that FCB back and returns the length |
| FileData.TruncateNoGrowth | utils.c:522-560 | a truncate that does not grow the file sets only the in-memory size after adjusting the chain, and passes on an adjust error |
| FileData.TruncateGrowth | utils.c:541-559 | a growing truncate that succeeds stores an FCB with the new size |
| FileData.GrowthPersisted | utils.c:541-559 | the same, for the growth step alone |
| FileData.TruncateFills | utils.c:541-553 | a growing truncate writes `new_size - old_size` zero bytes at the old size |
| FileData.FillPersisted | utils.c:549-559 | when that write returns the full count, the size is set and the FCB stored holds it |
| FileDataImpl.ReadCopy | utils.c:285-306 | the copy loop of read_file |
| FileDataImpl.ReadFile | utils.c:250-311 | read_file with its seek loop |
| FileDataImpl.WriteCopy | utils.c:359-377 | the copy loop of write_file |
| FileDataImpl.WriteSeekLoop | utils.c:349-357 | the seek loop of write_file |
| FileDataImpl.WriteBack | utils.c:349-385 | seek, copy and FCB write-back |
| FileDataImpl.WriteFile | utils.c:315-386 | write_file |
| FileDataImpl.Truncate | utils.c:522-560 | _truncate |
| FileDataImpl.ZeroGrowth | utils.c:541-559 | the growing branch of _truncate |
| Fs.PutEntry | fat16.c:304-305 | an entry write returns 0 exactly when the entry fits, and -EIO with the image unchanged otherwise |
| Fs.PutEntryReadsBack | fat16.c:304-305 | a written entry reads back and nothing else changes |
| Fs.PutEntriesReadBack | fat16.c:363-368 | two entry writes in sequence succeed exactly when both fit, and the second always reads back |
| Fs.GetattrSpec | fat16.c:111-138 | `/` is a directory; a missing path is an error; a volume label is -ENOENT; a directory entry is a directory and anything else a regular file of the entry's size |
| Fs.ReadSpec | fat16.c:167-180 | read returns -ENOENT for a missing path and -EISDIR for a directory, and otherwise what read_file returns, never more than asked for or than the file holds |
| Fs.WriteSpec | fat16.c:182-200 | write returns -EISDIR for `/` and for directories, -EIO for a missing path, -EINVAL above INT32_MAX, and on a full write stores an FCB whose size is the larger of the old size and the end of the write |
| Fs.TruncateSpec | fat16.c:315-331 | truncate returns -ENOENT for a missing path and -EISDIR for a directory; a shrink stores nothing but the adjusted chain; a successful growth stores the new size |
| Fs.UnlinkSpec | fat16.c:502-518 | unlink returns -ENOENT for a missing entry or a volume label and -EISDIR for a directory; otherwise, for an entry that lies outside the FAT (`OutsideFat`: its 32 bytes lie wholly before or wholly after the first FAT copy), it succeeds exactly when the entry fits and then deletes it |
| Fs.RmdirSpec | fat16.c:620-640 | rmdir returns -ENOENT for a missing entry or a volume label and -ENOTDIR for a file; -ENOTEMPTY exactly when is_directory_empty answers 0, which on a directory whose pages can all be read (`Readable`) means a live entry comes before the end marker; a page that cannot be read makes is_directory_empty answer -EIO, which rmdir takes as empty; for an entry outside the FAT it succeeds exactly when the entry is a directory, is_directory_empty does not answer 0 and the entry fits, and then deletes it |
| Fs.FindSlotRoot | fat16.c:243-249 | the root search for a free slot changes nothing and answers the walker's status; its record then holds a free slot, or no slot (`pos` -1), or is left as it was on entry when the walker returned before the callback ran |
| Fs.FindSlotSub | fat16.c:250-271 | in a sub-directory, a parent that is missing or not a directory is an error; a full parent is extended by one cluster, its FCB written back, and the slot is the new cluster's first entry |
| Fs.CreateSpec | fat16.c:210-312 | create returns -EINVAL for `/`, -EEXIST for an existing path, and on success stores at the free slot a new entry with the padded name and extension, size 0 and first cluster END |
| Fs.NewFileSpec | fat16.c:273-306 | after the slot search, create returns -ENFILE with no slot and -EINVAL for an over-long name, and otherwise writes the entry at the slot, succeeding exactly when it fits; for a leaf with no space and no NUL, get_filename reads the written entry back as the leaf, less a trailing dot, ignoring case |
| Fs.MkdirSpec | fat16.c:536-618 | mkdir returns -EINVAL for `/` and for a name that is not 1 to 8 letters, digits or underscores, -EEXIST for an existing path, and otherwise writes a directory entry |
| Fs.NewDirSpec | fat16.c:597-615 | the entry mkdir writes is a directory with no extension, size 0, first cluster END, and reads back as the leaf name |
| Fs.RenameOntoExisting | fat16.c:340-369 | onto an existing destination, rename returns -ENOTEMPTY for a directory moved onto a non-empty one, and otherwise releases the destination's head cluster, writes the source FCB over it under the destination's name, then marks the source deleted; it never checks that the source exists |
| Fs.RenameToNew | fat16.c:370-452 | to a new destination, rename returns the slot search's error, -ENFILE or -EINVAL, and on success writes the source FCB under the new name into the free slot and marks the source deleted |
| FsImpl.PutEntry | fat16.c:304-305 | an entry write over the array |
| FsImpl.Getattr | fat16.c:111-138 | fat16_getattr |
| FsImpl.Read | fat16.c:167-180 | fat16_read |
| FsImpl.Write | fat16.c:182-200 | fat16_write |
| FsImpl.Truncate | fat16.c:315-331 | fat16_truncate |
| FsImpl.Unlink | fat16.c:502-518 | fat16_unlink |
| FsImpl.Rmdir | fat16.c:620-640 | fat16_rmdir |
| FsImpl.FindSlot | fat16.c:243-271 | the free-slot search shared by create, mkdir and rename |
| FsImpl.Create | fat16.c:210-312 | fat16_create |
| FsImpl.Mkdir | fat16.c:536-618 | fat16_mkdir |
| FsImpl.Rename | fat16.c:333-455 | fat16_rename |

Each `DirectoryImpl`, `FatImpl`, `FileDataImpl` and `FsImpl` method ensures
that the array it leaves and the values it returns are those of the
`Directory`, `Fat`, `FileData` or `Fs` function of the same name.

## Left out

- Allocation failure: the `-ENOMEM` and `-EFAULT` paths after `malloc` or `strdup` and the `malloc` failure branch of `file_new_cluster` are not modelled; allocation is taken to succeed.
- `release_cluster`'s `abort()` on a failed write: modelled as stopping with the image unchanged, since the process ends there.
- `fat16_init`'s opening of the image, its `abort()` paths and the `fuse_log` calls are not modelled; the image is a byte array of fixed size given to the constructor.
- io.c: `fseek`, `fread` and `fwrite` are modelled as an all-or-nothing copy, so a partial transfer at the end of the image is not represented.
- Uninitialised locals are not modelled as unknown memory. The `FindOption` record of `find_fcb` and the operations, and the FCB buffer that `find_fcb` fills only on a hit, are explicit parameters (`junk` and `Fs.Stack`), because the `dir[i]` defect can return without the callback running. `Fs.Stack` holds one value per C local (`find`, `findTo`, `findParent`, `opt`, `fcb`, `fcbTo`, `parentFcb`), so separate locals are never forced to start out equal.
- The root walker's `dir[i]` probe past the end of the buffer (`i >= fcb_per_cluster`) reads outside the allocation; the model treats such an entry as not an end marker.
- Loops the source leaves unbounded are bounded by a fuel of `size_fat/2 + 1` steps (`Fat.Bound`): the chain walks of `get_cluster_count`, `traverse_sub_dir`, `is_directory_empty` and `file_new_cluster`. A cyclic chain is therefore cut off instead of looping forever.
- `off_t` offsets are natural numbers: negative offsets passed by FUSE are not modelled.
- The `int` variables `pos` and `n` of `read_file` and `write_file` are unbounded, so their overflow above 2^31 is not modelled.
- `mkdir`'s leaked `tmp` string and all `free` calls are not modelled.
- fat16_readdir, open, opendir, flush, chmod, chown, statfs, access, release and destroy are not part of this model: they are dispatch or no-ops. The `readdir_callback` visitor is modelled (`Directory.ReadDirVisit`), with `filler` as appending names to a list.
- main.c, options.h and io.h are not part of this model: option parsing and prototypes only.
- The timestamps and the second FAT copy are never written by the source and are carried unchanged.
- Fat.Adjust: growth to the new count is proved (`Growth.AdjustGrows`) only for a chain that ends and holds no cluster reading FREE (`Growth.Owned`), with enough claimable slots. A chain a shrink has cut holds such a cluster, because the shrink writes FREE, not END, into the new last slot (utils.c:580); that cluster is claimable (`Growth.ShrinkLeavesTailClaimable`), so the allocator may take it and the file's chain is no longer a chain of its own; nothing is then promised about a later growth.
- Fat.Adjust: file_new_cluster reports a failed write as -EIO truncated to `uint16_t` (0xFFFB, `Fat.EIO_U16`), while adjust_cluster_count compares its answer with END only (utils.c:588); so adjust answers 0 although the chain did not grow (`Growth.AdjustIgnoresEio`), and the model keeps that behaviour.
- FileData.WriteFileOutcome: does not prove that a following read at a cluster-aligned offset returns the bytes written; that needs the freshly allocated chain to be disjoint from the FAT and the FCB, which is not established here.

## Findings

| source | as written | input that shows it | evidently intended | confidence | as-written member | corrected member |
|---|---|---|---|---|---|---|
| utils.c:82 | `get_filename` stores its NUL at `filename[i+1+j]`, which is index 12 when the name has 8 bytes and the extension 3, while the callbacks pass a 12-byte buffer (`char fullname[MAX_FULLNAME]`, utils.c:190 and 222) | the entry `README12.TXT`: the NUL lands at `fullname[12]` | a buffer of `MAX_FULLNAME + 1` bytes, so the NUL always fits | not executed | DirectoryImpl.FullNameOverflows | DirectoryImpl.GetFilename |
