/** Reading the interface UUID of an xclbin: validate the container, find its metadata, walk the blob. */
module XclbinUuid {
  import opened Machine
  import opened Axlf
  import opened AxlfRemove
  import Fdt

  const EINVAL: int := 22
  const PARTITION_METADATA: u32 := 20

  /** "xclbin2" and its terminator. */
  const MAGIC: seq<byte> := [0x78, 0x63, 0x6C, 0x62, 0x69, 0x6E, 0x32, 0]

  predicate HasMagic(b: seq<byte>) {
    |b| >= 8 && b[..8] == MAGIC
  }

  method Validate(buf: array<byte>) returns (ret: int)
    requires buf.Length >= 8
    ensures ret == if HasMagic(buf[..]) then 0 else -EINVAL
  {
    for i := 0 to 8
      invariant buf[..i] == MAGIC[..i]
    {
      if buf[i] != MAGIC[i] {
        return -EINVAL;
      }
    }
    ret := 0;
  }

  /** The container leads to metadata that is not empty. */
  predicate HasMetadata(r: Raw) {
    Located(r, PARTITION_METADATA) && r.headers[FirstOf(r.headers, PARTITION_METADATA, 0)].size != 0
  }

  /** Where the metadata of the container starts. */
  function MetadataAt(r: Raw): nat
    requires HasMetadata(r)
  {
    r.headers[FirstOf(r.headers, PARTITION_METADATA, 0)].offset
  }

  /** The metadata is a devicetree blob for `tree`, with room behind its values for the copy. */
  ghost predicate HoldsBlob(b: seq<byte>, at: nat, tree: Fdt.Node, n: nat) {
    && at + 24 <= |b|
    && var start, strings := at + Fdt.Cell(b, at + Fdt.OFF_STRUCT_AT), at + Fdt.Cell(b, at + Fdt.OFF_STRINGS_AT);
       var version := Fdt.Cell(b, at + Fdt.VERSION_AT);
       Fdt.Block(b, start, Fdt.Flatten(tree), version, strings) && Fdt.Room(b, start, Fdt.Flatten(tree), version, n)
  }

  /** The walk reaches a wanted property. */
  predicate HasUuid(tree: Fdt.Node) {
    && Fdt.FirstProperty(Fdt.Properties(tree)) < |Fdt.Properties(tree)|
    && Fdt.FirstToken(Fdt.Flatten(tree)) <= Fdt.RETRY
  }

  /**
   The interface UUID of a container, well formed or not: what is refused, and with which error, and what
   is copied.
   */
  method GetUuids(buf: array<byte>, uuid: array<byte>, ghost r: Raw, ghost tree: Fdt.Node) returns (ret: int)
    requires buf != uuid && buf[..] == RawBytes(r) && (r.count <= MAX_SECTIONS ==> r.count == |r.headers|)
    requires HasMetadata(r) ==> HoldsBlob(buf[..], MetadataAt(r), tree, uuid.Length)
    modifies uuid
    ensures ret == -EINVAL <==> !HasMagic(buf[..])
    ensures ret == 0 <==> HasMagic(buf[..]) && HasMetadata(r) && HasUuid(tree)
    ensures ret in {0, -EINVAL, -Fdt.ENOENT}
    ensures ret == 0 ==>
      var q := Fdt.Properties(tree)[Fdt.FirstProperty(Fdt.Properties(tree))];
      && Fdt.IsInterfaceUuid(q.name)
      && (uuid.Length <= |q.value| || 0 in q.value ==> Fdt.HoldsText(uuid[..], q.value))
    ensures ret != 0 ==> uuid[..] == old(uuid[..])
  {
    hide RawBytes, Fdt.Flatten, Fdt.Properties, Fdt.Block, Fdt.Room, Fdt.Cell, Fdt.HoldsText;
    hide Fdt.IsInterfaceUuid, HasMagic;
    ret := Validate(buf);
    if ret != 0 {
      return;
    }
    var err, offset, size := SectionInfo(buf, PARTITION_METADATA, r);
    if err != 0 || size == 0 {
      return -Fdt.ENOENT;
    }
    ret := Fdt.GetUuidsOfBlob(buf[..], offset, uuid, tree);
  }
}
