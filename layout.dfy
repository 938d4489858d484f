/** On-disk records of a FAT16 volume (fat16.h): integer widths, the packed
    little-endian layouts of the BIOS parameter block, the extended BPB, the
    512-byte boot record and the 32-byte directory entry (FCB), and the
    cluster, metadata and name-length constants. */
module Layout {

  type byte = b: int | 0 <= b < 0x100
  type u16 = x: int | 0 <= x < 0x1_0000
  type u32 = x: int | 0 <= x < 0x1_0000_0000

  /** 2^32 and 2^64, for the `uint32_t` and `size_t` arithmetic of the source. */
  const TWO_32: nat := 0x1_0000_0000
  const TWO_64: nat := 0x1_0000_0000_0000_0000

  // Cluster numbers (FAT entries)
  const CLUSTER_FREE: u16 := 0x0000
  const CLUSTER_MIN: u16 := 0x0002
  const CLUSTER_MAX: u16 := 0xFFEF
  const CLUSTER_END: u16 := 0xFFFF

  /** A cluster number is in use when it names an allocatable data cluster. */
  predicate InUse(c: int) {
    CLUSTER_MIN <= c <= CLUSTER_MAX
  }

  // Metadata flag bits of an FCB
  const META_READONLY: byte := 0x01
  const META_READ_WRITE: byte := 0x00
  const META_HIDDEN: byte := 0x02
  const META_SYSTEM: byte := 0x04
  const META_VOLUME_LABEL: byte := 0x08
  const META_DIRECTORY: byte := 0x10
  const META_ARCHIVE: byte := 0x20

  // Name lengths, all derived from the FCB field widths
  const MAX_FILENAME: nat := 8
  const MAX_EXTNAME: nat := 3
  const MAX_FULLNAME: nat := MAX_FILENAME + MAX_EXTNAME + 1
  const FCB_SIZE: nat := 32

  // Visitor index results
  const ENT_NOTFOUND: int := -1
  const ENT_END: int := -2

  // First-byte markers of a directory entry and the bytes the codec looks at
  const END_MARK: byte := 0x00
  const DELETED_MARK: byte := 0xE5
  const SPACE: byte := 0x20
  const DOT: byte := 0x2E
  const SLASH: byte := 0x2F

  /** Bit `k` of a metadata byte, i.e. `(m & (1 << k)) != 0`. */
  predicate Bit(m: byte, k: nat)
    requires k < 8
  {
    (m / Pow2(k)) % 2 == 1
  }

  function Pow2(k: nat): (r: nat)
    ensures r > 0
  {
    if k == 0 then 1 else 2 * Pow2(k - 1)
  }

  /** `(m & META_DIRECTORY) != 0` and `(m & META_VOLUME_LABEL) != 0`. */
  predicate IsDirectory(m: byte) { Bit(m, 4) }
  predicate IsVolumeLabel(m: byte) { Bit(m, 3) }

  lemma Pow2Values()
    ensures Pow2(0) == 1 && Pow2(1) == 2 && Pow2(2) == 4 && Pow2(3) == 8
    ensures Pow2(4) == 16 && Pow2(5) == 32 && Pow2(6) == 64 && Pow2(7) == 128
  {
  }

  /** Each metadata flag sets exactly one bit, and no two flags set the same bit. */
  lemma FlagsAreDistinctSingleBits()
    ensures forall k :: 0 <= k < 8 ==>
      (Bit(META_READONLY, k) <==> k == 0) && (Bit(META_HIDDEN, k) <==> k == 1) &&
      (Bit(META_SYSTEM, k) <==> k == 2) && (Bit(META_VOLUME_LABEL, k) <==> k == 3) &&
      (Bit(META_DIRECTORY, k) <==> k == 4) && (Bit(META_ARCHIVE, k) <==> k == 5) &&
      !Bit(META_READ_WRITE, k)
  {
    Pow2Values();
    forall k | 0 <= k < 8
      ensures (Bit(META_READONLY, k) <==> k == 0) && (Bit(META_HIDDEN, k) <==> k == 1) &&
        (Bit(META_SYSTEM, k) <==> k == 2) && (Bit(META_VOLUME_LABEL, k) <==> k == 3) &&
        (Bit(META_DIRECTORY, k) <==> k == 4) && (Bit(META_ARCHIVE, k) <==> k == 5) &&
        !Bit(META_READ_WRITE, k)
    {
      if k == 0 {} else if k == 1 {} else if k == 2 {} else if k == 3 {}
      else if k == 4 {} else if k == 5 {} else if k == 6 {} else {}
    }
  }

  lemma ClusterConstantsOrdered()
    ensures CLUSTER_FREE < CLUSTER_MIN <= CLUSTER_MAX < CLUSTER_END
    ensures !InUse(CLUSTER_END) && !InUse(CLUSTER_FREE)
    ensures forall c: u16 :: InUse(c) ==> c != CLUSTER_END && c != CLUSTER_FREE
  {
  }

  lemma NameLengths()
    ensures MAX_FILENAME == 8 && MAX_EXTNAME == 3 && MAX_FULLNAME == 12
  {
  }

  // ---------------------------------------------------------------------
  // Little-endian integers

  function U16Bytes(x: u16): (r: seq<byte>)
    ensures |r| == 2
  {
    [x % 0x100, x / 0x100]
  }

  function ToU16(s: seq<byte>): (x: u16)
    requires |s| == 2
  {
    s[0] as int + 0x100 * (s[1] as int)
  }

  lemma U16RoundTrip(x: u16)
    ensures ToU16(U16Bytes(x)) == x
  {
  }

  lemma U16BytesRoundTrip(s: seq<byte>)
    requires |s| == 2
    ensures U16Bytes(ToU16(s)) == s
  {
  }

  function U32Bytes(x: u32): (r: seq<byte>)
    ensures |r| == 4
  {
    [x % 0x100, (x / 0x100) % 0x100, (x / 0x1_0000) % 0x100, x / 0x100_0000]
  }

  function ToU32(s: seq<byte>): (x: u32)
    requires |s| == 4
  {
    s[0] as int + 0x100 * (s[1] as int) + 0x1_0000 * (s[2] as int) + 0x100_0000 * (s[3] as int)
  }

  lemma U32RoundTrip(x: u32)
    ensures ToU32(U32Bytes(x)) == x
  {
    var q1, q2, q3 := x / 0x100, x / 0x1_0000, x / 0x100_0000;
    assert q2 == q1 / 0x100 && q3 == q2 / 0x100;
    assert x == x % 0x100 + 0x100 * q1;
    assert q1 == q1 % 0x100 + 0x100 * q2;
    assert q2 == q2 % 0x100 + 0x100 * q3;
  }

  lemma U32BytesRoundTrip(s: seq<byte>)
    requires |s| == 4
    ensures U32Bytes(ToU32(s)) == s
  {
    var x := ToU32(s);
    var a, b, c, d := s[0] as int, s[1] as int, s[2] as int, s[3] as int;
    assert x == a + 0x100 * (b + 0x100 * (c + 0x100 * d));
    assert x % 0x100 == a;
    assert x / 0x100 == b + 0x100 * (c + 0x100 * d);
    assert (x / 0x100) / 0x100 == c + 0x100 * d;
    assert x / 0x1_0000 == c + 0x100 * d;
    assert x / 0x100_0000 == d;
  }

  // ---------------------------------------------------------------------
  // Directory entry (FCB), 32 bytes

  datatype FcbRecord = FcbRecord(
    filename: seq<byte>,      // bytes 0-7, space padded
    extname: seq<byte>,       // bytes 8-10, space padded
    metadata: byte,           // byte 11
    reserved: seq<byte>,      // bytes 12-21
    lastModifyTime: u16,      // bytes 22-23
    lastModifyDate: u16,      // bytes 24-25
    firstCluster: u16,        // bytes 26-27
    size: u32)                // bytes 28-31
  {
    predicate WellFormed() {
      |filename| == MAX_FILENAME && |extname| == MAX_EXTNAME && |reserved| == 10
    }
  }

  type Fcb = f: FcbRecord | f.WellFormed()
    witness FcbRecord([0, 0, 0, 0, 0, 0, 0, 0], [0, 0, 0], 0, [0, 0, 0, 0, 0, 0, 0, 0, 0, 0], 0, 0, 0, 0)

  function EncodeFcb(f: Fcb): (r: seq<byte>)
    ensures |r| == FCB_SIZE
  {
    f.filename + f.extname + [f.metadata] + f.reserved
      + U16Bytes(f.lastModifyTime) + U16Bytes(f.lastModifyDate)
      + U16Bytes(f.firstCluster) + U32Bytes(f.size)
  }

  function DecodeFcb(s: seq<byte>): Fcb
    requires |s| == FCB_SIZE
  {
    FcbRecord(s[0..8], s[8..11], s[11], s[12..22], ToU16(s[22..24]), ToU16(s[24..26]),
              ToU16(s[26..28]), ToU32(s[28..32]))
  }

  /** Byte positions of every FCB field inside its 32-byte encoding. */
  lemma FcbFieldOffsets(f: Fcb)
    ensures var e := EncodeFcb(f);
      e[0..8] == f.filename && e[8..11] == f.extname && e[11] == f.metadata &&
      e[12..22] == f.reserved && e[22..24] == U16Bytes(f.lastModifyTime) &&
      e[24..26] == U16Bytes(f.lastModifyDate) && e[26..28] == U16Bytes(f.firstCluster) &&
      e[28..32] == U32Bytes(f.size)
  {
    var e := EncodeFcb(f);
    var a := f.filename + f.extname + [f.metadata] + f.reserved;
    assert e == a + U16Bytes(f.lastModifyTime) + U16Bytes(f.lastModifyDate)
                  + U16Bytes(f.firstCluster) + U32Bytes(f.size);
    assert e[0..8] == f.filename;
    assert e[8..11] == f.extname;
    assert e[12..22] == f.reserved;
  }

  /** Packing an FCB and unpacking the 32 bytes gives back the same fields. */
  lemma FcbRoundTrip(f: Fcb)
    ensures DecodeFcb(EncodeFcb(f)) == f
  {
    FcbFieldOffsets(f);
    U16RoundTrip(f.lastModifyTime);
    U16RoundTrip(f.lastModifyDate);
    U16RoundTrip(f.firstCluster);
    U32RoundTrip(f.size);
  }

  /** Unpacking 32 bytes and packing the record gives back the same bytes. */
  lemma FcbBytesRoundTrip(s: seq<byte>)
    requires |s| == FCB_SIZE
    ensures EncodeFcb(DecodeFcb(s)) == s
  {
    var f := DecodeFcb(s);
    U16BytesRoundTrip(s[22..24]);
    U16BytesRoundTrip(s[24..26]);
    U16BytesRoundTrip(s[26..28]);
    U32BytesRoundTrip(s[28..32]);
    assert s == s[0..8] + s[8..11] + [s[11]] + s[12..22] + s[22..24] + s[24..26] + s[26..28] + s[28..32];
  }

  // ---------------------------------------------------------------------
  // Boot sector: BPB (25 bytes), EBPB (26 bytes), boot record (512 bytes)

  datatype Bpb = Bpb(
    bytesPerSector: u16, sectorsPerCluster: byte, reservedSector: u16, numberOfFat: byte,
    rootEntries: u16, smallSector: u16, mediaDescriptor: byte, sectorsPerFat: u16,
    sectorsPerTrack: u16, numberOfHead: u16, hiddenSector: u32, largeSector: u32)

  function EncodeBpb(b: Bpb): (r: seq<byte>)
    ensures |r| == 25
  {
    U16Bytes(b.bytesPerSector) + [b.sectorsPerCluster] + U16Bytes(b.reservedSector)
      + [b.numberOfFat] + U16Bytes(b.rootEntries) + U16Bytes(b.smallSector)
      + [b.mediaDescriptor] + U16Bytes(b.sectorsPerFat) + U16Bytes(b.sectorsPerTrack)
      + U16Bytes(b.numberOfHead) + U32Bytes(b.hiddenSector) + U32Bytes(b.largeSector)
  }

  function DecodeBpb(s: seq<byte>): Bpb
    requires |s| == 25
  {
    Bpb(ToU16(s[0..2]), s[2], ToU16(s[3..5]), s[5], ToU16(s[6..8]), ToU16(s[8..10]), s[10],
        ToU16(s[11..13]), ToU16(s[13..15]), ToU16(s[15..17]), ToU32(s[17..21]), ToU32(s[21..25]))
  }

  lemma BpbRoundTrip(b: Bpb)
    ensures DecodeBpb(EncodeBpb(b)) == b
  {
    var e := EncodeBpb(b);
    assert e[0..2] == U16Bytes(b.bytesPerSector);
    assert e[3..5] == U16Bytes(b.reservedSector);
    assert e[6..8] == U16Bytes(b.rootEntries);
    assert e[8..10] == U16Bytes(b.smallSector);
    assert e[11..13] == U16Bytes(b.sectorsPerFat);
    assert e[13..15] == U16Bytes(b.sectorsPerTrack);
    assert e[15..17] == U16Bytes(b.numberOfHead);
    assert e[17..21] == U32Bytes(b.hiddenSector);
    assert e[21..25] == U32Bytes(b.largeSector);
    U16RoundTrip(b.bytesPerSector);
    U16RoundTrip(b.reservedSector);
    U16RoundTrip(b.rootEntries);
    U16RoundTrip(b.smallSector);
    U16RoundTrip(b.sectorsPerFat);
    U16RoundTrip(b.sectorsPerTrack);
    U16RoundTrip(b.numberOfHead);
    U32RoundTrip(b.hiddenSector);
    U32RoundTrip(b.largeSector);
  }

  datatype Ebpb = Ebpb(
    physicalDriveNumber: byte, reserved: byte, extendedBootSignature: byte,
    volumeSerialNumber: u32, volumeLabel: seq<byte>, fileSystemType: seq<byte>)
  {
    predicate WellFormed() { |volumeLabel| == 11 && |fileSystemType| == 8 }
  }

  function EncodeEbpb(e: Ebpb): (r: seq<byte>)
    requires e.WellFormed()
    ensures |r| == 26
  {
    [e.physicalDriveNumber, e.reserved, e.extendedBootSignature]
      + U32Bytes(e.volumeSerialNumber) + e.volumeLabel + e.fileSystemType
  }

  function DecodeEbpb(s: seq<byte>): (e: Ebpb)
    requires |s| == 26
    ensures e.WellFormed()
  {
    Ebpb(s[0], s[1], s[2], ToU32(s[3..7]), s[7..18], s[18..26])
  }

  lemma EbpbRoundTrip(e: Ebpb)
    requires e.WellFormed()
    ensures DecodeEbpb(EncodeEbpb(e)) == e
  {
    var s := EncodeEbpb(e);
    assert s[3..7] == U32Bytes(e.volumeSerialNumber);
    assert s[7..18] == e.volumeLabel;
    assert s[18..26] == e.fileSystemType;
    U32RoundTrip(e.volumeSerialNumber);
  }

  datatype BootRecord = BootRecord(
    jmpBoot: seq<byte>, oemId: seq<byte>, bpb: Bpb, ebpb: Ebpb, bootCode: seq<byte>,
    endSignature: u16)
  {
    predicate WellFormed() {
      |jmpBoot| == 3 && |oemId| == 8 && ebpb.WellFormed() && |bootCode| == 448
    }
  }

  /** The boot record is 3 + 8 + 25 + 26 + 448 + 2 = 512 bytes. */
  function EncodeBoot(b: BootRecord): (r: seq<byte>)
    requires b.WellFormed()
    ensures |r| == 512
  {
    b.jmpBoot + b.oemId + EncodeBpb(b.bpb) + EncodeEbpb(b.ebpb) + b.bootCode
      + U16Bytes(b.endSignature)
  }

  function DecodeBoot(s: seq<byte>): (b: BootRecord)
    requires |s| == 512
    ensures b.WellFormed()
  {
    BootRecord(s[0..3], s[3..11], DecodeBpb(s[11..36]), DecodeEbpb(s[36..62]), s[62..510],
               ToU16(s[510..512]))
  }

  /** The two halves of a concatenation. */
  lemma ConcatParts<T>(a: seq<T>, b: seq<T>)
    ensures (a + b)[..|a|] == a && (a + b)[|a|..] == b
  {
  }

  /** A slice inside the first part of a concatenation. */
  lemma PrefixSlice<T>(a: seq<T>, b: seq<T>, i: int, j: int)
    requires 0 <= i <= j <= |a|
    ensures (a + b)[i..j] == a[i..j]
  {
  }

  /** Where the fields sit inside the boot record. */
  lemma BootFields(b: BootRecord)
    requires b.WellFormed()
    ensures var e := EncodeBoot(b);
      e[0..3] == b.jmpBoot && e[3..11] == b.oemId && e[11..36] == EncodeBpb(b.bpb) &&
      e[36..62] == EncodeEbpb(b.ebpb) && e[62..510] == b.bootCode &&
      e[510..512] == U16Bytes(b.endSignature)
  {
    var a2 := b.jmpBoot + b.oemId;
    var a3 := a2 + EncodeBpb(b.bpb);
    var a4 := a3 + EncodeEbpb(b.ebpb);
    var a5 := a4 + b.bootCode;
    var e := a5 + U16Bytes(b.endSignature);
    assert e == EncodeBoot(b);
    ConcatParts(a5, U16Bytes(b.endSignature));
    assert e[510..512] == e[510..];
    ConcatParts(a4, b.bootCode);
    PrefixSlice(a5, U16Bytes(b.endSignature), 62, 510);
    ConcatParts(a3, EncodeEbpb(b.ebpb));
    PrefixSlice(a5, U16Bytes(b.endSignature), 36, 62);
    PrefixSlice(a4, b.bootCode, 36, 62);
    assert a4[36..62] == a4[36..];
    ConcatParts(a2, EncodeBpb(b.bpb));
    PrefixSlice(a5, U16Bytes(b.endSignature), 11, 36);
    PrefixSlice(a4, b.bootCode, 11, 36);
    PrefixSlice(a3, EncodeEbpb(b.ebpb), 11, 36);
    assert a3[11..36] == a3[11..];
    ConcatParts(b.jmpBoot, b.oemId);
    PrefixSlice(a5, U16Bytes(b.endSignature), 0, 11);
    PrefixSlice(a4, b.bootCode, 0, 11);
    PrefixSlice(a3, EncodeEbpb(b.ebpb), 0, 11);
    PrefixSlice(a2, EncodeBpb(b.bpb), 0, 11);
    assert a2[0..11] == a2;
    assert e[0..3] == a2[0..3] && e[3..11] == a2[3..11];
    assert a2[3..11] == a2[3..];
  }

  /** Where the BPB, the EBPB and `bytes_per_sector` sit inside the boot record. */
  lemma BootLayout(b: BootRecord)
    requires b.WellFormed()
    ensures var e := EncodeBoot(b);
      e[11..36] == EncodeBpb(b.bpb) && e[36..62] == EncodeEbpb(b.ebpb) &&
      ToU16(e[11..13]) == b.bpb.bytesPerSector
  {
    var e := EncodeBoot(b);
    BootFields(b);
    assert e[11..13] == e[11..36][0..2];
    assert EncodeBpb(b.bpb)[0..2] == U16Bytes(b.bpb.bytesPerSector);
    U16RoundTrip(b.bpb.bytesPerSector);
  }

  lemma BootRoundTrip(b: BootRecord)
    requires b.WellFormed()
    ensures DecodeBoot(EncodeBoot(b)) == b
  {
    BootFields(b);
    BpbRoundTrip(b.bpb);
    EbpbRoundTrip(b.ebpb);
    U16RoundTrip(b.endSignature);
  }
}
