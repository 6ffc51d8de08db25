/** One device tree for two chips, from the directory to the bytes of the image. */
module DtbExample {
  import opened Buffers
  import opened Bytes
  import opened ChipList
  import opened DtbCombine
  import opened DtbLayout
  import opened DtbRegister
  import opened DtbTool
  import opened Options

  const Directory: seq<Scanned> := [Scanned("a.dtb", [Id(2, 1, 1), Id(1, 9, 9)], 4)]

  const Tree: seq<Byte> := [0xD0, 0x0D, 0xFE, 0xED]

  const Disk: map<string, seq<Byte>> := map["a.dtb" := Tree]

  lemma TwoIds()
    ensures var reg := Registry(Directory, 1);
      |reg| == 2 && reg.Keys == {Id(1, 9, 9), Id(2, 1, 1)} && forall id :: id in reg ==> reg[id] == 0
  {
    var reg, file := Registry(Directory, 1), Directory[0];
    assert Registry(Directory, 0) == map[];
    assert reg.Keys == {Id(1, 9, 9), Id(2, 1, 1)} by {
      assert file.ids[0] == Id(2, 1, 1) && file.ids[1] == Id(1, 9, 9);
    }
    assert |reg.Keys| == |reg|;
  }

  /** The nodes are in the order of the ids. */
  lemma TwoNodes(nodes: seq<ChipInfo>, of: map<ChipInfo, nat>)
    requires Sorted(nodes) && Listed(nodes, of, Directory)
    ensures |nodes| == 2 && nodes[0].id == Id(1, 9, 9) && nodes[1].id == Id(2, 1, 1)
  {
    TwoIds();
    var reg := Registry(Directory, 1);
    RegistryCount(nodes, of, reg);
    hide Registry, Owners;
    assert nodes[0].id in reg && nodes[1].id in reg && Less(nodes[0].id, nodes[1].id);
  }

  lemma OneMaster(nodes: seq<ChipInfo>, of: map<ChipInfo, nat>, page: nat)
    requires page > 0 && Listed(nodes, of, Directory) && nodes != []
    ensures |AllMasters(nodes)| == 1 && AllMasters(nodes)[0] in of && of[AllMasters(nodes)[0]] == 0
    ensures AllTotal(nodes, Sizes(of, Directory, page)) == Padded(4, page)
  {
    hide Registry, Padded, Masters;
    var ms := AllMasters(nodes);
    MastersOwn(nodes, of, Directory);
    MastersDistinct(nodes, |nodes|);
    MasterOfNode(nodes, 0);
    OnlyOne(ms, of);
    assert Total(ms, 1, Sizes(of, Directory, page)) == Get(Sizes(of, Directory, page), ms[0]);
  }

  lemma OnlyOne(ms: seq<ChipInfo>, of: map<ChipInfo, nat>)
    requires Distinct(ms) && ms != [] && forall m :: m in ms ==> m in of && of[m] == 0
    requires forall m, m' :: m in of && m' in of && of[m] == of[m'] ==> m == m'
    ensures |ms| == 1
  {
    var first, last := ms[0], ms[|ms| - 1];
    assert first in of && last in of && of[first] == of[last];
  }

  /** The blob is at the first page behind the table. */
  lemma BlobPlace(nodes: seq<ChipInfo>, of: map<ChipInfo, nat>, i: nat)
    requires Sorted(nodes) && Listed(nodes, of, Directory) && i < |nodes|
    ensures OffsetOf(nodes, of, Directory, 2048, nodes[i].master) == 2048
  {
    TwoNodes(nodes, of);
    OneMaster(nodes, of, 2048);
    hide Registry, Masters, AllMasters, AllOffsets;
    var size := Sizes(of, Directory, 2048);
    var j := MasterPlace(nodes, 2048, size, i);
    assert FirstBlob(2, 2048) == 2048;
    OutputIs(nodes, of, Directory, Disk, 2048);
  }

  lemma NothingChanged()
    ensures Stable(Directory, Disk, 2048)
  {
    TwoIds();
    hide Registry;
  }

  /** The number in four bytes. */
  function Number(b: seq<Byte>, at: nat): int
    requires at + 4 <= |b|
  {
    b[at] as int + 0x100 * b[at + 1] as int + 0x1_0000 * b[at + 2] as int + 0x100_0000 * b[at + 3] as int
  }

  lemma WordAt(b: seq<Byte>, at: nat)
    requires at + 4 <= |b|
    ensures FromLittle(b[at..at + 4]) == Number(b, at)
  {
    FromFour(b[at..at + 4]);
    hide FromLittle;
  }

  lemma EntryNumbers(b: seq<Byte>, i: nat)
    requires 12 + 20 * i + 20 <= |b|
    ensures var at, e := 12 + 20 * i, ReadEntry(b, i);
      && e.id == Id(Number(b, at), Number(b, at + 4), Number(b, at + 8))
      && e.offset == Number(b, at + 12) && e.size == Number(b, at + 16)
  {
    hide FromLittle, Number;
    var at := 12 + 20 * i;
    WordAt(b, at);
    WordAt(b, at + 4);
    WordAt(b, at + 8);
    WordAt(b, at + 12);
    WordAt(b, at + 16);
    SliceOfSlice(b, at, at + 20, 0, 4);
    SliceOfSlice(b, at, at + 20, 4, 8);
    SliceOfSlice(b, at, at + 20, 8, 12);
    SliceOfSlice(b, at, at + 20, 12, 16);
    SliceOfSlice(b, at, at + 20, 16, 20);
  }

  lemma SmallNumber(b: seq<Byte>, at: nat, n: nat)
    requires at + 4 <= |b| && Number(b, at) == n < 0x1_0000
    ensures b[at..at + 4] == [n % 256, n / 256, 0, 0]
  {
    assert b[at] == n % 256 && b[at + 1] == n / 256 && b[at + 2] == 0 && b[at + 3] == 0;
  }

  /** What an entry with small numbers says, byte by byte. */
  lemma EntryBytes(b: seq<Byte>, i: nat, e: TableEntry)
    requires 12 + 20 * i + 20 <= |b| && ReadEntry(b, i) == e
    requires e.id.chipset < 256 && e.id.platform < 256 && e.id.revNum < 256 && e.offset == e.size == 2048
    ensures b[12 + 20 * i..12 + 20 * i + 20]
         == [e.id.chipset, 0, 0, 0] + [e.id.platform, 0, 0, 0] + [e.id.revNum, 0, 0, 0] + [0, 8, 0, 0] + [0, 8, 0, 0]
  {
    hide Number, ReadEntry;
    var at := 12 + 20 * i;
    EntryNumbers(b, i);
    SmallNumber(b, at, e.id.chipset);
    SmallNumber(b, at + 4, e.id.platform);
    SmallNumber(b, at + 8, e.id.revNum);
    SmallNumber(b, at + 12, 2048);
    SmallNumber(b, at + 16, 2048);
    FiveWordsAt(b, at);
  }

  lemma FiveWordsAt(b: seq<Byte>, at: nat)
    requires at + 20 <= |b|
    ensures b[at..at + 20] == b[at..at + 4] + b[at + 4..at + 8] + b[at + 8..at + 12] + b[at + 12..at + 16]
                              + b[at + 16..at + 20]
  {
  }

  lemma HeaderBytes(b: seq<Byte>)
    requires Framed(b, 2, 2048) && |b| == 4096
    ensures b[..4] == [0x53, 0x50, 0x52, 0x44] && b[4..8] == [1, 0, 0, 0] && b[8..12] == [2, 0, 0, 0]
    ensures b[52..56] == [0, 0, 0, 0] && forall i :: 56 <= i < 2048 ==> b[i] == 0
  {
    WordAt(b, 4);
    WordAt(b, 8);
    SmallNumber(b, 4, 1);
    SmallNumber(b, 8, 2);
    assert Padded(56, 2048) == 2048;
  }

  /** The image that the tool writes for this directory with pages of 2048 bytes. */
  method CombineTwoIds() returns (image: Option<seq<Byte>>)
    ensures image.Some? && |image.value| == 4096
    ensures var b := image.value;
      && b[..4] == [0x53, 0x50, 0x52, 0x44] && b[4..8] == [1, 0, 0, 0] && b[8..12] == [2, 0, 0, 0]
      && b[12..32] == [1, 0, 0, 0] + [9, 0, 0, 0] + [9, 0, 0, 0] + [0, 8, 0, 0] + [0, 8, 0, 0]
      && b[32..52] == [2, 0, 0, 0] + [1, 0, 0, 0] + [1, 0, 0, 0] + [0, 8, 0, 0] + [0, 8, 0, 0]
      && b[52..56] == [0, 0, 0, 0] && (forall i :: 56 <= i < 2048 ==> b[i] == 0)
      && b[2048..2052] == [0xD0, 0x0D, 0xFE, 0xED] && forall i :: 2052 <= i < 4096 ==> b[i] == 0
  {
    ghost var nodes, of;
    image, nodes, of := Build(Directory, 2048, Disk);
    TwoNodes(nodes, of);
    NothingChanged();
    StableMeans(nodes, of, Directory, Disk, 2048);
    OutputBytes(nodes, of);
    hide *;
  }

  lemma OutputBytes(nodes: seq<ChipInfo>, of: map<ChipInfo, nat>)
    requires Sorted(nodes) && Listed(nodes, of, Directory)
    ensures var b := Output(nodes, of, Directory, Disk, 2048);
      && |b| == 4096
      && b[..4] == [0x53, 0x50, 0x52, 0x44] && b[4..8] == [1, 0, 0, 0] && b[8..12] == [2, 0, 0, 0]
      && b[12..32] == [1, 0, 0, 0] + [9, 0, 0, 0] + [9, 0, 0, 0] + [0, 8, 0, 0] + [0, 8, 0, 0]
      && b[32..52] == [2, 0, 0, 0] + [1, 0, 0, 0] + [1, 0, 0, 0] + [0, 8, 0, 0] + [0, 8, 0, 0]
      && b[52..56] == [0, 0, 0, 0] && (forall i :: 56 <= i < 2048 ==> b[i] == 0)
      && b[2048..2052] == [0xD0, 0x0D, 0xFE, 0xED] && forall i :: 2052 <= i < 4096 ==> b[i] == 0
  {
    hide Output, Listed, Sorted, Framed, ReadEntry, Registry, Stable, FileAt;
    TwoNodes(nodes, of);
    OutputLengthIs(nodes, of);
    var b := Output(nodes, of, Directory, Disk, 2048);
    OutputFramed(nodes, of, Directory, Disk, 2048);
    HeaderBytes(b);
    OutputEntry(nodes, of, 0);
    OutputEntry(nodes, of, 1);
    EntryBytes(b, 0, TableEntry(Id(1, 9, 9), 2048, 2048));
    EntryBytes(b, 1, TableEntry(Id(2, 1, 1), 2048, 2048));
  }

  lemma OutputLengthIs(nodes: seq<ChipInfo>, of: map<ChipInfo, nat>)
    requires Sorted(nodes) && Listed(nodes, of, Directory)
    ensures |Output(nodes, of, Directory, Disk, 2048)| == 4096
  {
    hide Output, Listed, Sorted, Registry, Stable, AllUnchanged, AllTotal, Sizes, Contents, Padded, FirstBlob;
    TwoNodes(nodes, of);
    OneMaster(nodes, of, 2048);
    NothingChanged();
    StableMeans(nodes, of, Directory, Disk, 2048);
    OutputSize(nodes, of, Directory, Disk, 2048);
    OnePage();
  }

  lemma OnePage()
    ensures Padded(4, 2048) == 2048 && FirstBlob(2, 2048) == 2048
  {
  }

  lemma OutputEntry(nodes: seq<ChipInfo>, of: map<ChipInfo, nat>, i: nat)
    requires Sorted(nodes) && Listed(nodes, of, Directory) && i < |nodes| == 2
    requires IdFits(nodes[i].id)
    ensures var b := Output(nodes, of, Directory, Disk, 2048);
      && 12 + 20 * i + 20 <= |b| && ReadEntry(b, i) == TableEntry(nodes[i].id, 2048, 2048)
      && |b| >= 4096 && b[2048..2052] == Tree && forall i :: 2052 <= i < 4096 ==> b[i] == 0
  {
    NothingChanged();
    BlobPlace(nodes, of, i);
    EntryLeads(nodes, of, Directory, Disk, 2048, i);
    TwoIds();
    assert Padded(4, 2048) == 2048;
    hide Registry, Output, OffsetOf, ReadEntry, IdFits, Padded, Stable;
  }
}
