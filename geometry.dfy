/** Volume geometry derived once at mount time from the BPB (fat16.c,
    fat16_init). All quantities are byte offsets or byte sizes inside the
    image. */
module Geometry {
  import opened Layout

  datatype Geometry = Geometry(
    offsetFat: nat,       // first FAT copy
    sizeFat: nat,         // bytes of one FAT copy
    offsetRoot: nat,      // root directory region
    sizeCluster: nat,     // bytes per cluster
    offsetData: nat,      // data region, cluster 2 starts here
    fcbPerCluster: nat,   // directory entries per cluster
    rootEntries: nat)     // entries of the root directory region

  /** The derivation of fat16_init. */
  function Derive(b: Bpb): (g: Geometry)
    // the reserved sectors, the FAT copies and the root directory lie back to
    // back, in that order, and the data region follows the root directory
    ensures g.offsetFat == b.reservedSector * b.bytesPerSector
    ensures g.offsetRoot - g.offsetFat == g.sizeFat * b.numberOfFat
    ensures g.offsetData - g.offsetRoot == FCB_SIZE * b.rootEntries
    ensures g.offsetFat <= g.offsetRoot <= g.offsetData
    ensures b.numberOfFat >= 1 ==> g.offsetFat + g.sizeFat <= g.offsetRoot
    ensures g.sizeFat == b.sectorsPerFat * b.bytesPerSector
    ensures g.sizeCluster == b.sectorsPerCluster * b.bytesPerSector
    // a cluster holds exactly the whole directory entries that fit in it
    ensures g.fcbPerCluster * FCB_SIZE <= g.sizeCluster < (g.fcbPerCluster + 1) * FCB_SIZE
    ensures g.rootEntries == b.rootEntries
  {
    var offsetFat := b.reservedSector * b.bytesPerSector;
    var sizeFat := b.bytesPerSector * b.sectorsPerFat;
    var offsetRoot := offsetFat + sizeFat * b.numberOfFat;
    var sizeCluster := b.sectorsPerCluster * b.bytesPerSector;
    var offsetData := offsetRoot + b.rootEntries * FCB_SIZE;
    var fcbPerCluster := sizeCluster / FCB_SIZE;
    Geometry(offsetFat, sizeFat, offsetRoot, sizeCluster, offsetData, fcbPerCluster, b.rootEntries)
  }

  /** What every engine operation needs of the geometry: it divides by the
      cluster size, and the entries a directory page holds lie inside it. */
  predicate Usable(g: Geometry) {
    g.sizeCluster > 0 && g.fcbPerCluster * FCB_SIZE <= g.sizeCluster
  }

  /** The regions are laid out FAT, root directory, data, without overlap. */
  predicate Contiguous(g: Geometry) {
    g.offsetFat + g.sizeFat <= g.offsetRoot &&
    g.offsetRoot + FCB_SIZE * g.rootEntries <= g.offsetData
  }

  /** A BPB with non-zero sector sizes and at least one FAT yields a usable,
      contiguous geometry. */
  lemma DeriveWellFormed(b: Bpb)
    requires b.bytesPerSector > 0 && b.sectorsPerCluster > 0 && b.numberOfFat >= 1
    ensures Usable(Derive(b)) && Contiguous(Derive(b))
  {
    var g := Derive(b);
    assert g.sizeCluster > 0 by {
      assert b.sectorsPerCluster * b.bytesPerSector >= 1 * b.bytesPerSector;
    }
  }
}
