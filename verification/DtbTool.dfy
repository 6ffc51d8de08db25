/** The two passes of dtbtool/dtbtool.c over the chip list, and the registration that fills
    it.  Every write is taken to complete. */
module DtbTool {
  import opened Buffers
  import opened Bytes
  import opened ChipList
  import opened DtbLayout

  const CopyBlk := 1024

  /** ms are the masters of the nodes. */
  ghost predicate AreMasters(ms: set<ChipInfo>, nodes: seq<ChipInfo>) {
    (forall n :: n in nodes ==> n.master in ms) && forall m :: m in ms ==> m in AllMasters(nodes)
  }

  /** size gives the masters' sizes. */
  ghost predicate Sized(ms: set<ChipInfo>, size: map<ChipInfo, nat>)
    reads ms`dtbSize
  {
    forall m :: m in ms ==> Get(size, m) == m.dtbSize
  }

  /** What registration leaves behind. */
  ghost predicate Ready(ms: set<ChipInfo>, page: nat)
    requires page > 0
    reads ms
  {
    forall m :: m in ms ==> m.dtbSize > 0 && m.dtbSize % page == 0 && m.masterOffset == 0 && !m.wroteDtb
  }

  // ------------------------------------------------------------------ the index pass

  /** Lines 486-496. */
  method IndexChip(chip: ChipInfo, expected: nat) returns (entry: seq<Byte>, expected': nat)
    modifies chip.master`masterOffset
    ensures chip.master.masterOffset
        == if old(chip.master.masterOffset) != 0 then old(chip.master.masterOffset) else expected
    ensures expected' == if old(chip.master.masterOffset) != 0 then expected else expected + chip.master.dtbSize
    ensures entry == LE32(chip.id.chipset) + LE32(chip.id.platform) + LE32(chip.id.revNum)
                     + LE32(chip.master.masterOffset) + LE32(chip.master.dtbSize)
  {
    entry := LE32(chip.id.chipset) + LE32(chip.id.platform) + LE32(chip.id.revNum);
    expected' := expected;
    if chip.master.masterOffset != 0 {
      entry := entry + LE32(chip.master.masterOffset);
    } else {
      entry := entry + LE32(expected);
      chip.master.masterOffset := expected;
      expected' := expected + chip.master.dtbSize;
    }
    entry := entry + LE32(chip.master.dtbSize);
  }

  /** Where the masters of the first k nodes go: one behind the other from start. */
  ghost function Offsets(nodes: seq<ChipInfo>, k: nat, size: map<ChipInfo, nat>, start: nat): map<ChipInfo, nat>
    requires k <= |nodes|
  {
    if k == 0 then map[]
    else
      var before, ms, m := Offsets(nodes, k - 1, size, start), Masters(nodes, k - 1), nodes[k - 1].master;
      if m in ms then before else before[m := start + Total(ms, |ms|, size)]
  }

  lemma {:induction false} OffsetsPlaced(nodes: seq<ChipInfo>, k: nat, size: map<ChipInfo, nat>, start: nat)
    requires k <= |nodes|
    ensures Placed(Masters(nodes, k), size, Offsets(nodes, k, size, start), start)
    ensures forall m :: m in Offsets(nodes, k, size, start) <==> m in Masters(nodes, k)
  {
    hide Masters, Offsets, Placed, Total;
    if k == 0 {
      NonePlaced(nodes, size, start);
    } else {
      OffsetsPlaced(nodes, k - 1, size, start);
      var ms, m := Masters(nodes, k - 1), nodes[k - 1].master;
      MastersNext(nodes, k - 1);
      OffsetsNext(nodes, k - 1, size, start);
      if m !in ms {
        PlaceLast(ms, m, size, Offsets(nodes, k - 1, size, start), start);
      }
    }
  }

  lemma NonePlaced(nodes: seq<ChipInfo>, size: map<ChipInfo, nat>, start: nat)
    ensures Placed(Masters(nodes, 0), size, Offsets(nodes, 0, size, start), start)
    ensures Offsets(nodes, 0, size, start) == map[] && Masters(nodes, 0) == []
  {
  }

  lemma OffsetsNext(nodes: seq<ChipInfo>, k: nat, size: map<ChipInfo, nat>, start: nat)
    requires k < |nodes|
    ensures var before, ms, m := Offsets(nodes, k, size, start), Masters(nodes, k), nodes[k].master;
            Offsets(nodes, k + 1, size, start) == if m in ms then before else before[m := start + Total(ms, |ms|, size)]
  {
  }

  lemma PlaceLast(ms: seq<ChipInfo>, m: ChipInfo, size: map<ChipInfo, nat>, offset: map<ChipInfo, nat>, start: nat)
    requires Placed(ms, size, offset, start) && m !in ms
    ensures Placed(ms + [m], size, offset[m := start + Total(ms, |ms|, size)], start)
  {
    hide Total, Get;
    var all, offset' := ms + [m], offset[m := start + Total(ms, |ms|, size)];
    forall j | 0 <= j < |all|
      ensures Get(offset', all[j]) == start + Total(all, j, size)
    {
      TotalOfPart(ms, [m], j, size);
      PlaceKept(ms, m, size, offset, start, j);
    }
  }

  lemma PlaceKept(ms: seq<ChipInfo>, m: ChipInfo, size: map<ChipInfo, nat>, offset: map<ChipInfo, nat>, start: nat,
                  j: nat)
    requires Placed(ms, size, offset, start) && m !in ms && j <= |ms|
    ensures var offset' := offset[m := start + Total(ms, |ms|, size)];
            Get(offset', (ms + [m])[j]) == start + Total(ms, j, size)
  {
    hide Total;
    if j < |ms| {
      assert (ms + [m])[j] == ms[j];
    }
  }

  lemma MasterOfNode(nodes: seq<ChipInfo>, i: nat)
    requires i < |nodes|
    ensures nodes[i].master in AllMasters(nodes)
  {
    MastersComplete(nodes, |nodes|, nodes[i].master);
  }

  /** The masters of one more node: the node's own is known already, or comes last. */
  lemma MastersNext(nodes: seq<ChipInfo>, k: nat)
    requires k < |nodes|
    ensures var ms, m := Masters(nodes, k), nodes[k].master;
            Masters(nodes, k + 1) == if m in ms then ms else ms + [m]
  {
  }

  /** Where the master of the k-th node goes, and where the next one would. */
  ghost function Expected(nodes: seq<ChipInfo>, k: nat, size: map<ChipInfo, nat>, start: nat): nat
    requires k <= |nodes|
  {
    start + Total(Masters(nodes, k), |Masters(nodes, k)|, size)
  }

  /** The table after k nodes. */
  ghost function Table(nodes: seq<ChipInfo>, k: nat, size: map<ChipInfo, nat>, start: nat): seq<Byte>
    requires k <= |nodes|
  {
    Index(nodes, k, Offsets(nodes, k, size, start), size)
  }

  /** One more node: a master that has no place yet gets the next, and the entry names it. */
  lemma TableNext(nodes: seq<ChipInfo>, k: nat, size: map<ChipInfo, nat>, start: nat)
    requires k < |nodes| && start > 0
    ensures var offset, m, expected := Offsets(nodes, k, size, start), nodes[k].master, Expected(nodes, k, size, start);
            var offset' := if Get(offset, m) != 0 then offset else offset[m := expected];
            && expected > 0
            && Offsets(nodes, k + 1, size, start) == offset'
            && Expected(nodes, k + 1, size, start)
                == (if Get(offset, m) != 0 then expected else expected + Get(size, m))
            && Table(nodes, k + 1, size, start) == Table(nodes, k, size, start) + Entry(nodes[k], offset', size)
  {
    hide Entry, Index, Get;
    Known(nodes, k, size, start);
    ExpectedNext(nodes, k, size, start);
    TableEntryNext(nodes, k, size, start);
  }

  lemma Known(nodes: seq<ChipInfo>, k: nat, size: map<ChipInfo, nat>, start: nat)
    requires k < |nodes| && start > 0
    ensures Get(Offsets(nodes, k, size, start), nodes[k].master) != 0 <==> nodes[k].master in Masters(nodes, k)
  {
    OffsetsPlaced(nodes, k, size, start);
  }

  lemma ExpectedNext(nodes: seq<ChipInfo>, k: nat, size: map<ChipInfo, nat>, start: nat)
    requires k < |nodes|
    ensures var m, expected := nodes[k].master, Expected(nodes, k, size, start);
            Expected(nodes, k + 1, size, start) == if m in Masters(nodes, k) then expected else expected + Get(size, m)
  {
    TotalOfPart(Masters(nodes, k), [nodes[k].master], |Masters(nodes, k)|, size);
  }

  lemma TableEntryNext(nodes: seq<ChipInfo>, k: nat, size: map<ChipInfo, nat>, start: nat)
    requires k < |nodes|
    ensures Table(nodes, k + 1, size, start)
            == Table(nodes, k, size, start) + Entry(nodes[k], Offsets(nodes, k + 1, size, start), size)
  {
    hide Entry;
    IndexSame(nodes, k, Offsets(nodes, k, size, start), Offsets(nodes, k + 1, size, start), size);
  }

  /** The loop's state after k nodes: what was written, what is next, and the offset of every
      master met; the others have none. */
  ghost predicate Indexed(ms: set<ChipInfo>, nodes: seq<ChipInfo>, k: nat, size: map<ChipInfo, nat>, start: nat,
                          expected: nat, index: seq<Byte>)
    requires k <= |nodes|
    reads ms`masterOffset
  {
    && expected == Expected(nodes, k, size, start)
    && index == Table(nodes, k, size, start)
    && forall m :: m in ms ==> m.masterOffset == Get(Offsets(nodes, k, size, start), m)
  }

  /** One round of the loop, for the k-th node. */
  method IndexRound(ghost ms: set<ChipInfo>, ghost nodes: seq<ChipInfo>, chip: ChipInfo, ghost k: nat,
                    index: seq<Byte>, expected: nat,
                    ghost size: map<ChipInfo, nat>, ghost start: nat)
    returns (index': seq<Byte>, expected': nat)
    requires AreMasters(ms, nodes) && k < |nodes| && nodes[k] == chip && start > 0 && Sized(ms, size)
    requires Indexed(ms, nodes, k, size, start, expected, index)
    modifies ms`masterOffset
    ensures Indexed(ms, nodes, k + 1, size, start, expected', index')
  {
    MasterIn(ms, nodes, k);
    TableNext(nodes, k, size, start);
    hide LE32, Offsets, Table, Expected, Masters;
    var entry;
    entry, expected' := IndexChip(chip, expected);
    index' := index + entry;
  }

  /** Lines 485-497: the index table, and where everything will be. */
  method WriteIndex(list: List, start: nat, ghost ms: set<ChipInfo>, ghost size: map<ChipInfo, nat>)
    returns (index: seq<Byte>, expected: nat)
    requires start > 0 && list.Valid() && AreMasters(ms, list.Nodes) && Sized(ms, size)
    requires forall m :: m in ms ==> m.masterOffset == 0
    modifies ms`masterOffset
    ensures expected == Expected(list.Nodes, |list.Nodes|, size, start)
    ensures index == Table(list.Nodes, |list.Nodes|, size, start)
  {
    ghost var nodes := list.Nodes;
    index, expected := [], start;
    list.Chain();
    assert Indexed(ms, nodes, 0, size, start, expected, index);
    hide Indexed, List.Valid, List.Linked, AreMasters, Sized, Table, Expected;
    var chip := list.head;
    ghost var k := 0;
    while chip != null
      invariant k <= |nodes| && chip == NodeAt(nodes, k)
      invariant Indexed(ms, nodes, k, size, start, expected, index)
      decreases |nodes| - k
    {
      index, expected := IndexRound(ms, nodes, chip, k, index, expected, size, start);
      chip := chip.next;
      k := k + 1;
    }
    TableDone(ms, nodes, size, start, expected, index);
  }

  lemma TableDone(ms: set<ChipInfo>, nodes: seq<ChipInfo>, size: map<ChipInfo, nat>, start: nat, expected: nat,
                  index: seq<Byte>)
    requires Indexed(ms, nodes, |nodes|, size, start, expected, index)
    ensures expected == Expected(nodes, |nodes|, size, start) && index == Table(nodes, |nodes|, size, start)
  {
  }

  lemma MasterIn(ms: set<ChipInfo>, nodes: seq<ChipInfo>, k: nat)
    requires AreMasters(ms, nodes) && k < |nodes|
    ensures nodes[k].master in ms
  {
  }

  // ------------------------------------------------------------------ the blob pass

  /** Lines 515-532: a file copied in blocks, and zeros up to the recorded size; false when
      that is not the size the file has now. */
  method CopyBlob(file: seq<Byte>, size: nat, page: nat) returns (out: seq<Byte>, ok: bool)
    requires page > 0
    ensures ok <==> Padded(|file|, page) == size
    ensures ok ==> |file| < |out| == size && out[..|file|] == file && forall i :: |file| <= i < size ==> out[i] == 0
    ensures ok ==> out == Blob(file, size)
  {
    out := [];
    var total := 0;
    while total < |file|
      invariant total <= |file| && out == file[..total]
    {
      var n := if |file| - total < CopyBlk then |file| - total else CopyBlk;
      out := out + file[total..total + n];
      total := total + n;
    }
    var padding := page - total % page;
    ok := total + padding == size;
    if ok {
      out := out + Zeros(padding);
    }
  }

  /** content is what is in the masters' files, as far as those are there. */
  ghost predicate Holds(ms: set<ChipInfo>, content: map<ChipInfo, seq<Byte>>, files: map<string, seq<Byte>>)
    reads ms`dtbFile
  {
    forall m :: m in ms ==> if m.dtbFile in files then m in content && content[m] == files[m.dtbFile] else m !in content
  }

  /** A master's file is there and still has the size it was registered with. */
  ghost predicate Unchanged(m: ChipInfo, size: map<ChipInfo, nat>, content: map<ChipInfo, seq<Byte>>, page: nat)
    requires page > 0
  {
    m in content && Padded(|content[m]|, page) == Get(size, m)
  }

  ghost predicate AllUnchanged(ms: set<ChipInfo>, size: map<ChipInfo, nat>, content: map<ChipInfo, seq<Byte>>,
                               page: nat)
    requires page > 0
  {
    forall m :: m in ms ==> Unchanged(m, size, content, page)
  }

  /** size and content say what is known about the masters and what is in their files. */
  ghost predicate Describe(ms: set<ChipInfo>, size: map<ChipInfo, nat>, content: map<ChipInfo, seq<Byte>>,
                           files: map<string, seq<Byte>>)
    reads ms`dtbSize, ms`dtbFile
  {
    Sized(ms, size) && Holds(ms, content, files)
  }

  ghost function AllBlobs(nodes: seq<ChipInfo>, size: map<ChipInfo, nat>,
                          content: map<ChipInfo, seq<Byte>>): seq<Byte> {
    Blobs(AllMasters(nodes), |AllMasters(nodes)|, size, content)
  }

  ghost function AllTotal(nodes: seq<ChipInfo>, size: map<ChipInfo, nat>): nat {
    Total(AllMasters(nodes), |AllMasters(nodes)|, size)
  }

  /** The blob pass after k nodes: the blobs of the masters met, and those are marked. */
  ghost predicate Written(ms: set<ChipInfo>, nodes: seq<ChipInfo>, k: nat, size: map<ChipInfo, nat>,
                          content: map<ChipInfo, seq<Byte>>, page: nat, out: seq<Byte>)
    requires page > 0
    reads ms`wroteDtb
  {
    && k <= |nodes|
    && out == Blobs(Masters(nodes, k), |Masters(nodes, k)|, size, content)
    && (forall m :: m in ms ==> (m.wroteDtb <==> m in Masters(nodes, k)))
    && (forall m :: m in ms && m.wroteDtb ==> Unchanged(m, size, content, page))
  }

  lemma WrittenNext(nodes: seq<ChipInfo>, k: nat, size: map<ChipInfo, nat>, content: map<ChipInfo, seq<Byte>>)
    requires k < |nodes|
    ensures var met, m := Masters(nodes, k), nodes[k].master;
            var met' := Masters(nodes, k + 1);
            Blobs(met', |met'|, size, content)
            == if m in met then Blobs(met, |met|, size, content)
               else Blobs(met, |met|, size, content) + Blob(Content(content, m), Get(size, m))
  {
    BlobsOfPart(Masters(nodes, k), [nodes[k].master], |Masters(nodes, k)|, size, content);
  }

  /** One round of the loop: nothing for a master already written. */
  method BlobRound(ghost ms: set<ChipInfo>, ghost nodes: seq<ChipInfo>, chip: ChipInfo, ghost k: nat, out: seq<Byte>,
                   page: nat, files: map<string, seq<Byte>>, ghost size: map<ChipInfo, nat>,
                       ghost content: map<ChipInfo, seq<Byte>>)
    returns (out': seq<Byte>, ok: bool)
    requires page > 0 && k < |nodes| && nodes[k] == chip && chip.master in ms
    requires Describe(ms, size, content, files) && Written(ms, nodes, k, size, content, page, out)
    modifies ms`wroteDtb
    ensures ok ==> Written(ms, nodes, k + 1, size, content, page, out')
    ensures !ok ==> !Unchanged(chip.master, size, content, page)
  {
    hide Masters, Blobs, Blob;
    MastersNext(nodes, k);
    WrittenNext(nodes, k, size, content);
    out', ok := out, true;
    if chip.master.wroteDtb {
      return;
    }
    chip.master.wroteDtb := true;
    if chip.master.dtbFile in files {
      var blob;
      blob, ok := CopyBlob(files[chip.master.dtbFile], chip.master.dtbSize, page);
      out' := out + blob;
    } else {
      ok := false;
    }
  }

  /** Lines 505-538. */
  method WriteBlobs(list: List, page: nat, files: map<string, seq<Byte>>, ghost ms: set<ChipInfo>,
                    ghost size: map<ChipInfo, nat>, ghost content: map<ChipInfo, seq<Byte>>)
    returns (out: seq<Byte>, ok: bool)
    requires page > 0 && list.Valid() && AreMasters(ms, list.Nodes)
    requires forall m :: m in ms ==> !m.wroteDtb
    requires Describe(ms, size, content, files)
    modifies ms`wroteDtb
    ensures ok <==> AllUnchanged(ms, size, content, page)
    ensures ok ==> out == AllBlobs(list.Nodes, size, content)
  {
    hide *;
    ghost var nodes := list.Nodes;
    out, ok := [], true;
    BlobsBegin(nodes, ms, size, content, page);
    list.Chain();
    var chip := list.head;
    ghost var k := 0;
    while chip != null
      invariant k <= |nodes| && chip == NodeAt(nodes, k)
      invariant Written(ms, nodes, k, size, content, page, out)
      decreases |nodes| - k
    {
      AtNode(nodes, k);
      MasterIn(ms, nodes, k);
      out, ok := BlobRound(ms, nodes, chip, k, out, page, files, size, content);
      if !ok {
        OneChanged(ms, chip.master, size, content, page);
        return;
      }
      chip := chip.next;
      k := k + 1;
    }
    AtNode(nodes, k);
    AllWritten(ms, nodes, size, content, page, out);
  }

  lemma AtNode(nodes: seq<ChipInfo>, k: nat)
    ensures NodeAt(nodes, k) == if k < |nodes| then nodes[k] else null
  {
  }

  lemma BlobsBegin(nodes: seq<ChipInfo>, ms: set<ChipInfo>, size: map<ChipInfo, nat>,
                   content: map<ChipInfo, seq<Byte>>, page: nat)
    requires page > 0 && forall m :: m in ms ==> !m.wroteDtb
    ensures Written(ms, nodes, 0, size, content, page, [])
  {
  }

  lemma OneChanged(ms: set<ChipInfo>, m: ChipInfo, size: map<ChipInfo, nat>, content: map<ChipInfo, seq<Byte>>,
                   page: nat)
    requires page > 0 && m in ms && !Unchanged(m, size, content, page)
    ensures !AllUnchanged(ms, size, content, page)
  {
  }

  lemma AllWritten(ms: set<ChipInfo>, nodes: seq<ChipInfo>, size: map<ChipInfo, nat>, content: map<ChipInfo, seq<Byte>>,
                   page: nat, out: seq<Byte>)
    requires page > 0 && AreMasters(ms, nodes) && Written(ms, nodes, |nodes|, size, content, page, out)
    ensures AllUnchanged(ms, size, content, page) && out == AllBlobs(nodes, size, content)
  {
  }

  // ------------------------------------------------------------------ the whole file

  const Magic: seq<Byte> := [0x53, 0x50, 0x52, 0x44]

  /** Magic, version and the number of entries. */
  function Header(count: nat): (h: seq<Byte>)
    ensures |h| == 12
  {
    Magic + LE32(1) + LE32(count)
  }

  /** Where the first blob starts: header, table and end mark, rounded up. */
  function FirstBlob(count: nat, page: nat): (start: nat)
    requires page > 0
    ensures start > 16 + 20 * count && start % page == 0
  {
    Padded(12 + 20 * count + 4, page)
  }

  /** Where each master's blob starts. */
  ghost function AllOffsets(nodes: seq<ChipInfo>, page: nat, size: map<ChipInfo, nat>): map<ChipInfo, nat>
    requires page > 0
  {
    Offsets(nodes, |nodes|, size, FirstBlob(|nodes|, page))
  }

  /** Everything in front of the blobs. */
  ghost function Front(nodes: seq<ChipInfo>, page: nat, size: map<ChipInfo, nat>): (front: seq<Byte>)
    requires page > 0
    ensures |front| == FirstBlob(|nodes|, page)
  {
    Header(|nodes|) + Index(nodes, |nodes|, AllOffsets(nodes, page, size), size) + LE32(0)
    + Zeros(FirstBlob(|nodes|, page) - (16 + 20 * |nodes|))
  }

  ghost function Image(nodes: seq<ChipInfo>, page: nat, size: map<ChipInfo, nat>,
                       content: map<ChipInfo, seq<Byte>>): seq<Byte>
    requires page > 0
  {
    Front(nodes, page, size) + AllBlobs(nodes, size, content)
  }

  /** Lines 463-502: header, index table, end mark and zeros up to the first blob. */
  method WriteFront(list: List, count: nat, page: nat, ghost ms: set<ChipInfo>, ghost size: map<ChipInfo, nat>)
    returns (out: seq<Byte>, expected: nat)
    requires page > 0 && list.Valid() && count == |list.Nodes| && AreMasters(ms, list.Nodes) && Sized(ms, size)
    requires forall m :: m in ms ==> m.masterOffset == 0
    modifies ms`masterOffset
    ensures out == Front(list.Nodes, page, size)
    ensures expected == |out| + AllTotal(list.Nodes, size)
  {
    out := Header(count);
    var offset0 := 12 + 20 * count + 4;
    var padding := page - offset0 % page;
    var start := offset0 + padding;
    assert start == FirstBlob(count, page);
    hide LE32, Header, Zeros, Sized, List.Valid, AreMasters, Index, FirstBlob, Offsets, Total, Masters;
    var index;
    index, expected := WriteIndex(list, start, ms, size);
    out := out + index + LE32(0) + Zeros(padding);
  }

  /** Lines 463-549 of main: the file is kept exactly when every master's file is still
      there with its registered size, and then what was written is what was expected. */
  method WriteImage(list: List, count: nat, page: nat, files: map<string, seq<Byte>>, ghost ms: set<ChipInfo>,
                    ghost size: map<ChipInfo, nat>, ghost content: map<ChipInfo, seq<Byte>>)
    returns (out: seq<Byte>, ok: bool)
    requires page > 0 && list.Valid() && count == |list.Nodes| && AreMasters(ms, list.Nodes) && Ready(ms, page)
    requires Describe(ms, size, content, files)
    modifies ms`masterOffset, ms`wroteDtb
    ensures ok <==> AllUnchanged(ms, size, content, page)
    ensures ok ==> out == Image(list.Nodes, page, size, content)
  {
    NotWritten(ms, page);
    hide List.Valid, AreMasters, Ready, Sized, Holds, AllUnchanged, Front, AllBlobs, AllTotal;
    var expected, blobs;
    out, expected := WriteFront(list, count, page, ms, size);
    blobs, ok := WriteBlobs(list, page, files, ms, size, content);
    out := out + blobs;
    if ok {
      BlobSizes(ms, list.Nodes, size, content, page);
    }
    var wrote := |out|;
    if expected != wrote {
      ok := false;
    }
  }

  lemma NotWritten(ms: set<ChipInfo>, page: nat)
    requires page > 0 && Ready(ms, page)
    ensures forall m :: m in ms ==> !m.wroteDtb && m.masterOffset == 0
  {
  }

  lemma BlobSizes(ms: set<ChipInfo>, nodes: seq<ChipInfo>, size: map<ChipInfo, nat>,
                  content: map<ChipInfo, seq<Byte>>, page: nat)
    requires page > 0 && AreMasters(ms, nodes)
    requires AllUnchanged(ms, size, content, page)
    ensures |AllBlobs(nodes, size, content)| == AllTotal(nodes, size)
  {
    BlobsFit(ms, nodes, size, content, page);
    BlobsLength(AllMasters(nodes), |AllMasters(nodes)|, size, content);
  }

  lemma BlobsFit(ms: set<ChipInfo>, nodes: seq<ChipInfo>, size: map<ChipInfo, nat>, content: map<ChipInfo, seq<Byte>>,
                 page: nat)
    requires page > 0 && AreMasters(ms, nodes)
    requires AllUnchanged(ms, size, content, page)
    ensures forall m :: m in AllMasters(nodes) ==> |Content(content, m)| <= Get(size, m)
  {
    forall m | m in AllMasters(nodes)
      ensures |Content(content, m)| <= Get(size, m)
    {
      MastersComplete(nodes, |nodes|, m);
      assert m in ms && Unchanged(m, size, content, page);
    }
  }

  // ------------------------------------------------------------------ reading the file back

  /** The i-th entry of the table as the boot loader reads it. */
  datatype TableEntry = TableEntry(id: Id, offset: nat, size: nat)

  function ReadEntry(image: seq<Byte>, i: nat): TableEntry
    requires 12 + 20 * i + 20 <= |image|
  {
    var e := image[12 + 20 * i..12 + 20 * i + 20];
    TableEntry(Id(FromLittle(e[..4]), FromLittle(e[4..8]), FromLittle(e[8..12])),
               FromLittle(e[12..16]), FromLittle(e[16..20]))
  }

  /** Exactly the entries whose numbers fit 32 bits are read back. */
  lemma EntryReadsBack(n: ChipInfo, offset: map<ChipInfo, nat>, size: map<ChipInfo, nat>)
    ensures var e := Entry(n, offset, size);
            Fits32Entry(n, offset, size)
            <==> && FromLittle(e[..4]) == n.id.chipset && FromLittle(e[4..8]) == n.id.platform
                 && FromLittle(e[8..12]) == n.id.revNum
                 && FromLittle(e[12..16]) == Get(offset, n.master) && FromLittle(e[16..20]) == Get(size, n.master)
  {
    LE32Back(n.id.chipset);
    LE32Back(n.id.platform);
    LE32Back(n.id.revNum);
    LE32Back(Get(offset, n.master));
    LE32Back(Get(size, n.master));
    hide LE32, FromLittle, Get;
    FiveWords(LE32(n.id.chipset), LE32(n.id.platform), LE32(n.id.revNum),
              LE32(Get(offset, n.master)), LE32(Get(size, n.master)));
  }

  lemma FiveWords(a: seq<Byte>, b: seq<Byte>, c: seq<Byte>, d: seq<Byte>, e: seq<Byte>)
    requires |a| == |b| == |c| == |d| == |e| == 4
    ensures var s := a + b + c + d + e;
            s[..4] == a && s[4..8] == b && s[8..12] == c && s[12..16] == d && s[16..20] == e
  {
  }

  /** The place of a master's blob. */
  lemma MasterPlace(nodes: seq<ChipInfo>, page: nat, size: map<ChipInfo, nat>, i: nat)
    returns (j: nat)
    requires page > 0 && i < |nodes|
    ensures j < |AllMasters(nodes)| && AllMasters(nodes)[j] == nodes[i].master
    ensures Get(AllOffsets(nodes, page, size), nodes[i].master)
        == FirstBlob(|nodes|, page) + Total(AllMasters(nodes), j, size)
    ensures Total(AllMasters(nodes), j, size) + Get(size, nodes[i].master) <= AllTotal(nodes, size)
  {
    MasterOfNode(nodes, i);
    j :| 0 <= j < |AllMasters(nodes)| && AllMasters(nodes)[j] == nodes[i].master;
    OffsetsPlaced(nodes, |nodes|, size, FirstBlob(|nodes|, page));
    TotalGrows(AllMasters(nodes), j, |AllMasters(nodes)|, size);
  }

  /** The i-th entry names the id and leads to the file, padded, at a page boundary. */
  ghost predicate LeadsTo(image: seq<Byte>, i: nat, id: Id, offset: nat, file: seq<Byte>, size: nat, page: nat)
    requires page > 0
  {
    && 12 + 20 * i + 20 <= |image| && ReadEntry(image, i) == TableEntry(id, offset, size)
    && offset % page == 0 && FileAt(image, offset, file, size)
  }

  /** Both passes agree: the contents of every master's file, padded, are where its chips'
      entries say, at a page boundary, and the entries say it if and only if their numbers fit
      32 bits. */
  lemma EntryLeadsToBlob(nodes: seq<ChipInfo>, page: nat, size: map<ChipInfo, nat>, content: map<ChipInfo, seq<Byte>>,
                         i: nat)
    requires page > 0 && i < |nodes|
    requires forall m :: m in AllMasters(nodes) ==> Get(size, m) % page == 0 && |Content(content, m)| <= Get(size, m)
    ensures var image, m := Image(nodes, page, size, content), nodes[i].master;
            var at, file := Get(AllOffsets(nodes, page, size), m), Content(content, m);
            && 12 + 20 * i + 20 <= |image|
            && at % page == 0 && FileAt(image, at, file, Get(size, m))
            && (ReadEntry(image, i) == TableEntry(nodes[i].id, at, Get(size, m))
                <==> Fits32Entry(nodes[i], AllOffsets(nodes, page, size), size))
  {
    hide Masters, AllMasters, Image, Entry, ReadEntry, Placed, Content, Get, Total, FirstBlob, Fits32Entry, AllOffsets,
         Blob, FileAt;
    var j := MasterPlace(nodes, page, size, i);
    PlaceAligned(nodes, page, size, i, j);
    InImage(nodes, page, size, content, i, j);
    var image, m := Image(nodes, page, size, content), nodes[i].master;
    BlobInImage(image, Get(AllOffsets(nodes, page, size), m), Content(content, m), Get(size, m));
    ReadsEntry(image, i, nodes[i], AllOffsets(nodes, page, size), size);
  }

  lemma PlaceAligned(nodes: seq<ChipInfo>, page: nat, size: map<ChipInfo, nat>, i: nat, j: nat)
    requires page > 0 && i < |nodes| && j <= |AllMasters(nodes)|
    requires Get(AllOffsets(nodes, page, size), nodes[i].master)
        == FirstBlob(|nodes|, page) + Total(AllMasters(nodes), j, size)
    requires forall m :: m in AllMasters(nodes) ==> Get(size, m) % page == 0
    ensures Get(AllOffsets(nodes, page, size), nodes[i].master) % page == 0
  {
    hide AllMasters, Get, AllOffsets;
    TotalAligned(AllMasters(nodes), j, size, page);
    SumAligned(FirstBlob(|nodes|, page), Total(AllMasters(nodes), j, size), page);
  }

  /** They do when the whole file stays below 4 GiB. */
  lemma SmallFits(nodes: seq<ChipInfo>, page: nat, size: map<ChipInfo, nat>, i: nat)
    requires page > 0 && i < |nodes| && FirstBlob(|nodes|, page) + AllTotal(nodes, size) < U32Size
    requires nodes[i].id.chipset < U32Size && nodes[i].id.platform < U32Size && nodes[i].id.revNum < U32Size
    ensures Fits32Entry(nodes[i], AllOffsets(nodes, page, size), size)
  {
    var j := MasterPlace(nodes, page, size, i);
    hide AllMasters, AllOffsets, Get, FirstBlob, Total;
  }

  ghost predicate Fits32Entry(n: ChipInfo, offset: map<ChipInfo, nat>, size: map<ChipInfo, nat>) {
    && n.id.chipset < U32Size && n.id.platform < U32Size && n.id.revNum < U32Size
    && Get(offset, n.master) < U32Size && Get(size, n.master) < U32Size
  }

  lemma ReadsEntry(image: seq<Byte>, i: nat, n: ChipInfo, offset: map<ChipInfo, nat>, size: map<ChipInfo, nat>)
    requires 12 + 20 * i + 20 <= |image| && image[12 + 20 * i..12 + 20 * i + 20] == Entry(n, offset, size)
    ensures ReadEntry(image, i) == TableEntry(n.id, Get(offset, n.master), Get(size, n.master))
            <==> Fits32Entry(n, offset, size)
  {
    EntryReadsBack(n, offset, size);
    hide Entry, FromLittle, Get;
  }

  /** The i-th entry and the j-th blob in the bytes of the file. */
  lemma InImage(nodes: seq<ChipInfo>, page: nat, size: map<ChipInfo, nat>, content: map<ChipInfo, seq<Byte>>, i: nat,
                j: nat)
    requires page > 0 && i < |nodes| && j < |AllMasters(nodes)|
    requires forall m :: m in AllMasters(nodes) ==> |Content(content, m)| <= Get(size, m)
    ensures var image, ms := Image(nodes, page, size, content), AllMasters(nodes);
            var at := FirstBlob(|nodes|, page) + Total(ms, j, size);
            && 12 + 20 * i + 20 <= |image| && at + Get(size, ms[j]) <= |image|
            && image[12 + 20 * i..12 + 20 * i + 20] == Entry(nodes[i], AllOffsets(nodes, page, size), size)
            && image[at..at + Get(size, ms[j])] == Blob(Content(content, ms[j]), Get(size, ms[j]))
  {
    hide Header, Index, LE32, Blobs, AllMasters, Entry, Blob, FirstBlob, Content, Get, Total, AllOffsets;
    var ms, start, offset := AllMasters(nodes), FirstBlob(|nodes|, page), AllOffsets(nodes, page, size);
    IndexEntry(nodes, |nodes|, offset, size, i);
    BlobAt(ms, |ms|, size, content, j);
    Sections(Header(|nodes|), Index(nodes, |nodes|, offset, size), LE32(0), Zeros(start - (16 + 20 * |nodes|)),
             Blobs(ms, |ms|, size, content), 20 * i, Total(ms, j, size), Get(size, ms[j]));
  }

  lemma Sections(header: seq<Byte>, index: seq<Byte>, end: seq<Byte>, pad: seq<Byte>, blobs: seq<Byte>, e: nat,
                 at: nat, n: nat)
    requires |header| == 12 && e + 20 <= |index| && |end| == 4 && at + n <= |blobs|
    ensures var image, start := header + index + end + pad + blobs, 16 + |index| + |pad|;
            && |image| == start + |blobs|
            && image[12 + e..12 + e + 20] == index[e..e + 20]
            && image[start + at..start + at + n] == blobs[at..at + n]
  {
    var rest, front := end + pad + blobs, header + index + end + pad;
    Within(header, index, rest, e, e + 20);
    assert header + index + rest == front + blobs;
    Within(front, blobs, [], at, at + n);
    assert front + blobs + [] == front + blobs;
  }

  /** Header and end mark in the bytes of the file. */
  lemma FrontReadsBack(nodes: seq<ChipInfo>, page: nat, size: map<ChipInfo, nat>, content: map<ChipInfo, seq<Byte>>)
    requires page > 0 && |nodes| < U32Size
    ensures var image, n := Image(nodes, page, size, content), |nodes|;
            && 16 + 20 * n <= |image| && image[..4] == Magic
            && FromLittle(image[4..8]) == 1 && FromLittle(image[8..12]) == n
            && image[12 + 20 * n..16 + 20 * n] == Zeros(4) && FirstBlob(n, page) <= |image|
            && image[16 + 20 * n..FirstBlob(n, page)] == Zeros(FirstBlob(n, page) - (16 + 20 * n))
  {
    hide LE32, Index, FromLittle, FirstBlob, AllBlobs, AllOffsets;
    var n, start := |nodes|, FirstBlob(|nodes|, page);
    var index, pad := Index(nodes, n, AllOffsets(nodes, page, size), size), Zeros(start - (16 + 20 * n));
    assert Image(nodes, page, size, content) == Header(n) + index + LE32(0) + (pad + AllBlobs(nodes, size, content));
    EndMark();
    HeaderParts(LE32(1), LE32(n), index, LE32(0), pad, AllBlobs(nodes, size, content));
  }

  lemma EndMark()
    ensures LE32(0) == Zeros(4)
  {
    assert LittleEndian(0, 4) == [0] + LittleEndian(0, 3);
    assert LittleEndian(0, 3) == [0] + LittleEndian(0, 2);
    assert LittleEndian(0, 2) == [0, 0];
  }

  lemma HeaderParts(version: seq<Byte>, count: seq<Byte>, index: seq<Byte>, end: seq<Byte>, pad: seq<Byte>,
                    rest: seq<Byte>)
    requires |version| == |count| == |end| == 4
    ensures var image, n := Magic + version + count + index + end + (pad + rest), 12 + |index|;
            && image[..4] == Magic && image[4..8] == version && image[8..12] == count && image[n..n + 4] == end
            && image[n + 4..n + 4 + |pad|] == pad
  {
    var image, front := Magic + version + count + index + end + (pad + rest), Magic + version + count + index;
    Middle(front, end, pad + rest);
    Middle(front + end, pad, rest);
    assert image == front + end + pad + rest;
    assert image == Magic + (version + (count + (index + end + (pad + rest))));
  }

  /** Blobs of different files do not overlap. */
  lemma BlobsDisjoint(nodes: seq<ChipInfo>, page: nat, size: map<ChipInfo, nat>, i: nat, i': nat)
    requires page > 0 && i < |nodes| && i' < |nodes| && nodes[i].master != nodes[i'].master
    ensures var m, m', offset := nodes[i].master, nodes[i'].master, AllOffsets(nodes, page, size);
            Get(offset, m) + Get(size, m) <= Get(offset, m') || Get(offset, m') + Get(size, m') <= Get(offset, m)
  {
    hide AllMasters, AllOffsets;
    var j := MasterPlace(nodes, page, size, i);
    var j' := MasterPlace(nodes, page, size, i');
    if j < j' {
      TotalGrows(AllMasters(nodes), j, j', size);
    } else {
      TotalGrows(AllMasters(nodes), j', j, size);
    }
  }
}
