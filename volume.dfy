/** The mounted volume: the image as a byte array, the boot record read at
    mount time and the geometry fat16_init derives from it (the globals of
    fat16.c). io_read and io_write transfer a byte range only when it lies
    wholly inside the image, and otherwise report a count of 0. */
module Volume {
  import opened Layout
  import opened Geometry
  import Store

  const BOOT_SIZE: nat := 512

  class Volume {
    const image: array<byte>
    const boot: BootRecord
    const geo: Geometry

    /** fat16_init: read the 512-byte boot record at offset 0 and derive the
        region offsets and sizes from its BPB. */
    constructor Init(image: array<byte>)
      requires image.Length >= BOOT_SIZE
      ensures this.image == image
      ensures boot == DecodeBoot(image[..BOOT_SIZE]) && geo == Derive(boot.bpb)
      ensures geo.offsetFat == boot.bpb.reservedSector * boot.bpb.bytesPerSector
      ensures geo.sizeFat == boot.bpb.bytesPerSector * boot.bpb.sectorsPerFat
      ensures geo.offsetRoot == geo.offsetFat + geo.sizeFat * boot.bpb.numberOfFat
      ensures geo.sizeCluster == boot.bpb.sectorsPerCluster * boot.bpb.bytesPerSector
      ensures geo.offsetData == geo.offsetRoot + boot.bpb.rootEntries * FCB_SIZE
      ensures geo.fcbPerCluster == geo.sizeCluster / FCB_SIZE
    {
      this.image := image;
      var b := DecodeBoot(image[..BOOT_SIZE]);
      boot := b;
      geo := Derive(b.bpb);
    }

    /** io_read(buf, offset, n): the bytes and the count transferred. */
    method IoRead(offset: int, n: nat) returns (count: nat, data: seq<byte>)
      ensures count == Store.Count(image[..], offset, n)
      ensures Store.Fits(image[..], offset, n) ==> data == Store.Read(image[..], offset, n)
      ensures |data| == count
    {
      if !Store.Fits(image[..], offset, n) {
        return 0, [];
      }
      count, data := n, image[offset..offset + n];
    }

    /** io_write(buf, offset, |data|): byte by byte into the image. */
    method IoWrite(offset: int, data: seq<byte>) returns (count: nat)
      modifies image
      ensures image[..] == Store.Write(old(image[..]), offset, data)
      ensures count == Store.Count(old(image[..]), offset, |data|)
    {
      if !Store.Fits(image[..], offset, |data|) {
        return 0;
      }
      var k := 0;
      while k < |data|
        invariant 0 <= k <= |data|
        invariant forall j :: 0 <= j < image.Length ==>
          image[j] == if offset <= j < offset + k then data[j - offset] else old(image[j])
      {
        image[offset + k] := data[k];
        k := k + 1;
      }
      assert image[..] == Store.Write(old(image[..]), offset, data);
      count := |data|;
    }
  }
}
