/** main of dtbtool/dtbtool.c as a whole: from the files of a directory to one file in which
    every registered chip leads to its device tree. */
module DtbCombine {
  import opened Arithmetic
  import opened Bytes
  import opened ChipList
  import opened DtbLayout
  import opened DtbRegister
  import opened DtbTool
  import opened Options

  /** Lines 382-444. */
  method Register(files: seq<Scanned>, page: nat) returns (list: List, count: nat, ghost of: map<ChipInfo, nat>)
    requires page > 0
    ensures list.Valid() && count == |list.Nodes|
    ensures Registered(list.Nodes, of, Registry(files, |files|))
    ensures Recorded(of, files, page) && Owners(of, list.Nodes, |files|)
    ensures fresh(list) && fresh(of.Keys)
  {
    hide *;
    list := new List();
    count, of := 0, map[];
    ghost var all: set<ChipInfo> := {};
    Nothing(list, files, page);
    var f := 0;
    while f < |files|
      invariant f <= |files| && State(list, all, of, files, f, page) && count == |list.Nodes|
      invariant fresh(list) && fresh(all)
    {
      var added;
      added, all, of := RegisterFile(list, files[f], page, all, of, files, f);
      count := count + added;
      f := f + 1;
    }
    Everything(list, all, of, files, page);
  }

  lemma Nothing(list: List, files: seq<Scanned>, page: nat)
    requires page > 0 && list.Valid() && list.Nodes == []
    ensures State(list, {}, map[], files, 0, page)
  {
  }

  lemma Everything(list: List, all: set<ChipInfo>, of: map<ChipInfo, nat>, files: seq<Scanned>, page: nat)
    requires page > 0 && State(list, all, of, files, |files|, page)
    ensures list.Valid() && Registered(list.Nodes, of, Registry(files, |files|))
    ensures Recorded(of, files, page) && Owners(of, list.Nodes, |files|) && of.Keys <= all
  {
  }

  // ------------------------------------------------------------------ what the list says, by file

  ghost function Sizes(of: map<ChipInfo, nat>, files: seq<Scanned>, page: nat): map<ChipInfo, nat>
    requires page > 0
  {
    map m | m in of && of[m] < |files| :: Padded(files[of[m]].size, page)
  }

  ghost function Contents(of: map<ChipInfo, nat>, files: seq<Scanned>,
                          disk: map<string, seq<Byte>>): map<ChipInfo, seq<Byte>>
  {
    map m | m in of && of[m] < |files| && files[of[m]].name in disk :: disk[files[of[m]].name]
  }

  ghost predicate StillThere(file: Scanned, disk: map<string, seq<Byte>>, page: nat)
    requires page > 0
  {
    file.name in disk && Padded(|disk[file.name]|, page) == Padded(file.size, page)
  }

  /** Every file that owns an id is still there with its size. */
  ghost predicate Stable(files: seq<Scanned>, disk: map<string, seq<Byte>>, page: nat)
    requires page > 0
  {
    var reg := Registry(files, |files|);
    forall id :: id in reg ==> reg[id] < |files| && StillThere(files[reg[id]], disk, page)
  }

  /** The file is there, with as many whole pages as when it was registered. */
  ghost predicate SamePagesThere(file: Scanned, disk: map<string, seq<Byte>>, page: nat)
    requires page > 0
  {
    file.name in disk && |disk[file.name]| / page == file.size / page
  }

  /** The first file that could claim an id is there like that. */
  ghost predicate OwnerThere(id: Id, files: seq<Scanned>, disk: map<string, seq<Byte>>, page: nat)
    requires page > 0
  {
    var reg := Registry(files, |files|);
    id in reg && reg[id] < |files| && SamePagesThere(files[reg[id]], disk, page)
  }

  lemma StableIs(files: seq<Scanned>, disk: map<string, seq<Byte>>, page: nat)
    requires page > 0
    ensures Stable(files, disk, page)
            <==> forall id :: id in Registry(files, |files|) ==> OwnerThere(id, files, disk, page)
  {
    hide Registry, StillThere, SamePagesThere;
    var reg := Registry(files, |files|);
    if Stable(files, disk, page) {
      forall id | id in reg
        ensures OwnerThere(id, files, disk, page)
      {
        StillThereMeans(files[reg[id]], disk, page);
      }
    }
    if forall id :: id in reg ==> OwnerThere(id, files, disk, page) {
      forall id | id in reg
        ensures reg[id] < |files| && StillThere(files[reg[id]], disk, page)
      {
        assert OwnerThere(id, files, disk, page);
        StillThereMeans(files[reg[id]], disk, page);
      }
      assert Stable(files, disk, page);
    }
  }

  lemma StillThereMeans(file: Scanned, disk: map<string, seq<Byte>>, page: nat)
    requires page > 0
    ensures StillThere(file, disk, page) <==> SamePagesThere(file, disk, page)
  {
    if file.name in disk {
      SamePages(|disk[file.name]|, file.size, page);
    }
    hide Padded;
  }

  lemma SamePages(a: nat, b: nat, page: nat)
    requires page > 0
    ensures Padded(a, page) == Padded(b, page) <==> a / page == b / page
  {
    var x, y := a / page, b / page;
    assert Padded(a, page) == x * page + page && Padded(b, page) == y * page + page;
    if x < y {
      MulBound(x, y, page);
    } else if y < x {
      MulBound(y, x, page);
    }
  }

  ghost predicate IdFits(id: Id) {
    id.chipset < U32Size && id.platform < U32Size && id.revNum < U32Size
  }

  lemma Prepared(list: List, of: map<ChipInfo, nat>, files: seq<Scanned>, disk: map<string, seq<Byte>>, page: nat)
    requires page > 0 && Owners(of, list.Nodes, |files|) && Recorded(of, files, page)
    requires Registered(list.Nodes, of, Registry(files, |files|))
    ensures AreMasters(of.Keys, list.Nodes) && Ready(of.Keys, page)
    ensures Describe(of.Keys, Sizes(of, files, page), Contents(of, files, disk), disk)
  {
    forall m | m in of.Keys
      ensures m in AllMasters(list.Nodes)
    {
      MastersComplete(list.Nodes, |list.Nodes|, m);
    }
  }

  /** The list holds the registry. */
  ghost predicate Listed(nodes: seq<ChipInfo>, of: map<ChipInfo, nat>, files: seq<Scanned>) {
    Registered(nodes, of, Registry(files, |files|)) && Owners(of, nodes, |files|)
  }

  ghost function Output(nodes: seq<ChipInfo>, of: map<ChipInfo, nat>, files: seq<Scanned>,
                        disk: map<string, seq<Byte>>, page: nat): seq<Byte>
    requires page > 0 && Listed(nodes, of, files)
  {
    Image(nodes, page, Sizes(of, files, page), Contents(of, files, disk))
  }

  ghost function OffsetOf(nodes: seq<ChipInfo>, of: map<ChipInfo, nat>, files: seq<Scanned>, page: nat,
                          m: ChipInfo): nat
    requires page > 0 && Listed(nodes, of, files)
  {
    Get(AllOffsets(nodes, page, Sizes(of, files, page)), m)
  }

  lemma OutputIs(nodes: seq<ChipInfo>, of: map<ChipInfo, nat>, files: seq<Scanned>, disk: map<string, seq<Byte>>,
                 page: nat)
    requires page > 0 && Listed(nodes, of, files)
    ensures Output(nodes, of, files, disk, page)
        == Image(nodes, page, Sizes(of, files, page), Contents(of, files, disk))
    ensures forall m :: OffsetOf(nodes, of, files, page, m) == Get(AllOffsets(nodes, page, Sizes(of, files, page)), m)
  {
  }

  /** Registration and both passes. Nothing is kept when there is no chip, or when a file
      changed between the passes. */
  method Build(files: seq<Scanned>, page: nat, disk: map<string, seq<Byte>>)
    returns (image: Option<seq<Byte>>, ghost nodes: seq<ChipInfo>, ghost of: map<ChipInfo, nat>)
    requires page > 0
    ensures Sorted(nodes) && Listed(nodes, of, files)
    ensures image.Some? <==>
      nodes != [] && AllUnchanged(of.Keys, Sizes(of, files, page), Contents(of, files, disk), page)
    ensures image.Some? ==> image.value == Output(nodes, of, files, disk, page)
  {
    var list, count;
    list, count, of := Register(files, page);
    nodes := list.Nodes;
    Prepared(list, of, files, disk, page);
    assert Sorted(nodes) && Listed(nodes, of, files);
    ghost var size, content := Sizes(of, files, page), Contents(of, files, disk);
    hide *;
    if count == 0 {
      return None, nodes, of;
    }
    var out, ok;
    out, ok := WriteImage(list, count, page, disk, of.Keys, size, content);
    assert Output(nodes, of, files, disk, page) == Image(nodes, page, size, content) by {
      OutputIs(nodes, of, files, disk, page);
    }
    image := if ok then Some(out) else None;
  }

  // ------------------------------------------------------------------ what the file says

  /** Kept exactly when there is a chip and no file that owns one changed. */
  lemma StableMeans(nodes: seq<ChipInfo>, of: map<ChipInfo, nat>, files: seq<Scanned>, disk: map<string, seq<Byte>>,
                    page: nat)
    requires page > 0 && Listed(nodes, of, files)
    ensures AllUnchanged(of.Keys, Sizes(of, files, page), Contents(of, files, disk), page) <==>
      Stable(files, disk, page)
    ensures nodes != [] <==> Registry(files, |files|) != map[]
  {
    UnchangedMeans(nodes, of, files, disk, page);
    hide Registry, AllUnchanged, Stable;
    if nodes != [] {
      assert nodes[0].id in Registry(files, |files|);
    }
  }

  lemma UnchangedMeans(nodes: seq<ChipInfo>, of: map<ChipInfo, nat>, files: seq<Scanned>,
                       disk: map<string, seq<Byte>>, page: nat)
    requires page > 0 && Listed(nodes, of, files)
    ensures AllUnchanged(of.Keys, Sizes(of, files, page), Contents(of, files, disk), page) <==>
      Stable(files, disk, page)
  {
    hide Registry, Unchanged, StillThere, Sizes, Contents, Padded, Owners;
    var reg, size, content := Registry(files, |files|), Sizes(of, files, page), Contents(of, files, disk);
    if AllUnchanged(of.Keys, size, content, page) {
      forall id | id in reg
        ensures reg[id] < |files| && StillThere(files[reg[id]], disk, page)
      {
        var i :| 0 <= i < |nodes| && nodes[i].id == id;
        OwnerMeans(nodes, of, files, disk, page, nodes[i].master);
        assert of[nodes[i].master] == reg[id];
      }
    }
    if Stable(files, disk, page) {
      forall m | m in of.Keys
        ensures Unchanged(m, size, content, page)
      {
        OwnerMeans(nodes, of, files, disk, page, m);
        assert StillThere(files[reg[m.id]], disk, page);
      }
    }
  }

  lemma OwnerMeans(nodes: seq<ChipInfo>, of: map<ChipInfo, nat>, files: seq<Scanned>, disk: map<string, seq<Byte>>,
                   page: nat, m: ChipInfo)
    requires page > 0 && Listed(nodes, of, files) && m in of
    ensures var reg := Registry(files, |files|);
      && m.id in reg && of[m] == reg[m.id] < |files|
      && (Unchanged(m, Sizes(of, files, page), Contents(of, files, disk), page)
          <==> StillThere(files[of[m]], disk, page))
  {
    hide Registry, Padded;
  }

  lemma BlobsInside(nodes: seq<ChipInfo>, of: map<ChipInfo, nat>, files: seq<Scanned>, disk: map<string, seq<Byte>>,
                    page: nat)
    requires page > 0 && Listed(nodes, of, files)
    requires AllUnchanged(of.Keys, Sizes(of, files, page), Contents(of, files, disk), page)
    ensures var size, content := Sizes(of, files, page), Contents(of, files, disk);
            forall m :: m in AllMasters(nodes) ==> Get(size, m) % page == 0 && |Content(content, m)| <= Get(size, m)
  {
    MastersOwn(nodes, of, files);
    BlobsFit(of.Keys, nodes, Sizes(of, files, page), Contents(of, files, disk), page);
  }

  /** The file's size, when no owning file changed. */
  lemma OutputSize(nodes: seq<ChipInfo>, of: map<ChipInfo, nat>, files: seq<Scanned>, disk: map<string, seq<Byte>>,
                   page: nat)
    requires page > 0 && Listed(nodes, of, files)
    requires AllUnchanged(of.Keys, Sizes(of, files, page), Contents(of, files, disk), page)
    ensures |Output(nodes, of, files, disk, page)| == FirstBlob(|nodes|, page) + AllTotal(nodes, Sizes(of, files, page))
  {
    MastersOwn(nodes, of, files);
    BlobSizes(of.Keys, nodes, Sizes(of, files, page), Contents(of, files, disk), page);
  }

  lemma MasterIsListed(nodes: seq<ChipInfo>, m: ChipInfo)
    requires m in nodes && m.master == m
    ensures m in AllMasters(nodes)
  {
    MastersComplete(nodes, |nodes|, m);
  }

  lemma MasterHasNode(nodes: seq<ChipInfo>, m: ChipInfo) returns (i: nat)
    requires m in AllMasters(nodes)
    ensures i < |nodes| && nodes[i].master == m
  {
    MastersComplete(nodes, |nodes|, m);
    i :| 0 <= i < |nodes| && nodes[i].master == m;
  }

  lemma MastersOwn(nodes: seq<ChipInfo>, of: map<ChipInfo, nat>, files: seq<Scanned>)
    requires Listed(nodes, of, files)
    ensures AreMasters(of.Keys, nodes) && forall m :: m in AllMasters(nodes) ==> m in of
  {
    hide Registry, AllMasters;
    forall m | m in of
      ensures m in AllMasters(nodes)
    {
      MasterIsListed(nodes, m);
    }
    forall m | m in AllMasters(nodes)
      ensures m in of
    {
      var i := MasterHasNode(nodes, m);
    }
  }

  /** The numbers of a node's entry: its id, and where the size bytes of its blob start. */
  ghost predicate NumbersFit(id: Id, offset: nat, size: nat) {
    IdFits(id) && offset < U32Size && size < U32Size
  }

  /** The whole of a node's file is at the node's offset, a page boundary, with zeros behind up
      to the next one; the node's entry says so if and only if its numbers fit 32 bits. */
  lemma EntryLeads(nodes: seq<ChipInfo>, of: map<ChipInfo, nat>, files: seq<Scanned>, disk: map<string, seq<Byte>>,
                   page: nat, i: nat)
    requires page > 0 && Listed(nodes, of, files) && Stable(files, disk, page) && i < |nodes|
    ensures var image, id := Output(nodes, of, files, disk, page), nodes[i].id;
            var f := Registry(files, |files|)[id];
            var at := OffsetOf(nodes, of, files, page, nodes[i].master);
            && f < |files| && files[f].name in disk && 12 + 20 * i + 20 <= |image|
            && var file := disk[files[f].name];
               && at % page == 0 && FileAt(image, at, file, Padded(|file|, page))
               && (ReadEntry(image, i) == TableEntry(id, at, Padded(|file|, page))
                   <==> NumbersFit(id, at, Padded(|file|, page)))
  {
    hide *;
    NodeContents(nodes, of, files, disk, page, i);
    StableMeans(nodes, of, files, disk, page);
    BlobsInside(nodes, of, files, disk, page);
    EntryLeadsToBlob(nodes, page, Sizes(of, files, page), Contents(of, files, disk), i);
    OutputIs(nodes, of, files, disk, page);
    NumbersAre(nodes, of, files, page, i);
  }

  lemma NumbersAre(nodes: seq<ChipInfo>, of: map<ChipInfo, nat>, files: seq<Scanned>, page: nat, i: nat)
    requires page > 0 && Listed(nodes, of, files) && i < |nodes|
    ensures var size, m := Sizes(of, files, page), nodes[i].master;
            Fits32Entry(nodes[i], AllOffsets(nodes, page, size), size)
            <==> NumbersFit(nodes[i].id, OffsetOf(nodes, of, files, page, m), Get(size, m))
  {
    hide Listed, AllOffsets, Registry, Sizes, Get;
  }

  /** Below 4 GiB they do. */
  lemma SmallNumbers(nodes: seq<ChipInfo>, of: map<ChipInfo, nat>, files: seq<Scanned>, disk: map<string, seq<Byte>>,
                     page: nat, i: nat)
    requires page > 0 && Listed(nodes, of, files) && Stable(files, disk, page) && i < |nodes|
    requires |Output(nodes, of, files, disk, page)| < U32Size && IdFits(nodes[i].id)
    ensures Fits32Entry(nodes[i], AllOffsets(nodes, page, Sizes(of, files, page)), Sizes(of, files, page))
  {
    StableMeans(nodes, of, files, disk, page);
    OutputSize(nodes, of, files, disk, page);
    SmallFits(nodes, page, Sizes(of, files, page), i);
    hide Listed, Stable, Output, AllOffsets, FirstBlob, AllTotal, Sizes;
  }

  lemma NodeContents(nodes: seq<ChipInfo>, of: map<ChipInfo, nat>, files: seq<Scanned>, disk: map<string, seq<Byte>>,
                     page: nat, i: nat)
    requires page > 0 && Listed(nodes, of, files) && Stable(files, disk, page) && i < |nodes|
    ensures var id, m, reg := nodes[i].id, nodes[i].master, Registry(files, |files|);
            && id in reg && reg[id] < |files| && files[reg[id]].name in disk
            && Content(Contents(of, files, disk), m) == disk[files[reg[id]].name]
            && Get(Sizes(of, files, page), m) == Padded(|disk[files[reg[id]].name]|, page)
  {
    hide Registry, Padded;
    assert StillThere(files[Registry(files, |files|)[nodes[i].id]], disk, page);
  }

  /** Every registered id has an entry, and it leads to the id's file if and only if its numbers
      fit 32 bits. */
  lemma EveryIdLeads(nodes: seq<ChipInfo>, of: map<ChipInfo, nat>, files: seq<Scanned>, disk: map<string, seq<Byte>>,
                     page: nat, id: Id)
    returns (i: nat)
    requires page > 0 && Listed(nodes, of, files) && Stable(files, disk, page)
    requires id in Registry(files, |files|)
    ensures i < |nodes| && Registry(files, |files|)[id] < |files| && files[Registry(files, |files|)[id]].name in disk
    ensures var image, file := Output(nodes, of, files, disk, page), disk[files[Registry(files, |files|)[id]].name];
            var at := OffsetOf(nodes, of, files, page, nodes[i].master);
            && 12 + 20 * i + 20 <= |image|
            && at % page == 0 && FileAt(image, at, file, Padded(|file|, page))
            && (ReadEntry(image, i) == TableEntry(id, at, Padded(|file|, page))
                <==> NumbersFit(id, at, Padded(|file|, page)))
  {
    hide Registry, Output, Stable, FileAt, ReadEntry, Padded, IdFits, OffsetOf;
    i :| i < |nodes| && nodes[i].id == id;
    EntryLeads(nodes, of, files, disk, page, i);
  }

  /** Ids of one file share its blob; the blobs of two files do not overlap. */
  lemma OneBlobPerFile(nodes: seq<ChipInfo>, of: map<ChipInfo, nat>, files: seq<Scanned>, page: nat, i: nat, i': nat)
    requires page > 0 && Listed(nodes, of, files) && i < |nodes| && i' < |nodes|
    ensures var reg, size := Registry(files, |files|), Sizes(of, files, page);
            var n, n' := nodes[i], nodes[i'];
            var at, at' := OffsetOf(nodes, of, files, page, n.master), OffsetOf(nodes, of, files, page, n'.master);
            if reg[n.id] == reg[n'.id] then at == at'
            else at + Get(size, n.master) <= at' || at' + Get(size, n'.master) <= at
  {
    if nodes[i].master != nodes[i'].master {
      BlobsDisjoint(nodes, page, Sizes(of, files, page), i, i');
    }
    hide Registry, AllOffsets, Sizes;
  }

  // ------------------------------------------------------------------ the whole tool

  /** The contents of the file that owns an id. */
  ghost function FileOf(id: Id, files: seq<Scanned>, disk: map<string, seq<Byte>>): seq<Byte> {
    var reg := Registry(files, |files|);
    if id in reg && reg[id] < |files| && files[reg[id]].name in disk then disk[files[reg[id]].name] else []
  }

  lemma {:induction false} IdMember(nodes: seq<ChipInfo>, k: nat, id: Id)
    requires k <= |nodes|
    ensures id in IdsOf(nodes, k) <==> exists i :: 0 <= i < k && nodes[i].id == id
  {
    if k > 0 {
      IdMember(nodes, k - 1, id);
    }
  }

  lemma {:induction false} IdCount(nodes: seq<ChipInfo>, k: nat)
    requires Sorted(nodes) && k <= |nodes|
    ensures |IdsOf(nodes, k)| == k
  {
    if k > 0 {
      IdCount(nodes, k - 1);
      IdMember(nodes, k - 1, nodes[k - 1].id);
    }
  }

  /** There are as many nodes as registered ids. */
  lemma RegistryCount(nodes: seq<ChipInfo>, of: map<ChipInfo, nat>, reg: map<Id, nat>)
    requires Sorted(nodes) && Registered(nodes, of, reg)
    ensures |nodes| == |reg|
  {
    IdCount(nodes, |nodes|);
    forall id ensures id in reg <==> id in IdsOf(nodes, |nodes|) {
      IdMember(nodes, |nodes|, id);
    }
    assert reg.Keys == IdsOf(nodes, |nodes|);
  }

  /** An entry is that of a registered id, and leads to the id's file. */
  ghost predicate EntryHolds(image: seq<Byte>, i: nat, files: seq<Scanned>, disk: map<string, seq<Byte>>, page: nat)
    requires page > 0
  {
    && 12 + 20 * i + 20 <= |image|
    && var e := ReadEntry(image, i);
       var file := FileOf(e.id, files, disk);
       e.id in Registry(files, |files|) && LeadsTo(image, i, e.id, e.offset, file, Padded(|file|, page), page)
  }

  /** Magic, version, the number of entries, the end mark and zeros up to the next page. */
  ghost predicate Framed(image: seq<Byte>, count: nat, page: nat)
    requires page > 0
  {
    && Padded(16 + 20 * count, page) <= |image| && image[..4] == Magic
    && FromLittle(image[4..8]) == 1 && FromLittle(image[8..12]) == count
    && image[12 + 20 * count..16 + 20 * count] == Zeros(4)
    && forall i :: 16 + 20 * count <= i < Padded(16 + 20 * count, page) ==> image[i] == 0
  }

  /** The table is the registry: its entries, in the order of their ids, are those of the
      registered ids and of no others, and each leads to the whole file of its id. */
  ghost predicate TableIs(image: seq<Byte>, files: seq<Scanned>, disk: map<string, seq<Byte>>, page: nat)
    requires page > 0
  {
    var reg := Registry(files, |files|);
    && Framed(image, |reg|, page)
    && (forall i :: 0 <= i < |reg| ==> EntryHolds(image, i, files, disk, page))
    && (forall i, j :: 0 <= i < j < |reg| ==> Less(ReadEntry(image, i).id, ReadEntry(image, j).id))
    && forall id :: id in reg ==> exists i :: 0 <= i < |reg| && ReadEntry(image, i).id == id
  }

  lemma NodeEntry(nodes: seq<ChipInfo>, of: map<ChipInfo, nat>, files: seq<Scanned>, disk: map<string, seq<Byte>>,
                  page: nat, i: nat)
    requires page > 0 && Listed(nodes, of, files) && Stable(files, disk, page) && i < |nodes|
    requires |Output(nodes, of, files, disk, page)| < U32Size && forall x :: x in Registry(files, |files|) ==> IdFits(x)
    ensures var image := Output(nodes, of, files, disk, page);
            EntryHolds(image, i, files, disk, page) && ReadEntry(image, i).id == nodes[i].id
  {
    hide Registry, Output, Stable, Padded, FileAt, IdFits, OffsetOf, Listed, Sizes, AllOffsets, Fits32Entry, Get,
         Content, Contents, NumbersFit;
    NodeContents(nodes, of, files, disk, page, i);
    SmallNumbers(nodes, of, files, disk, page, i);
    NumbersAre(nodes, of, files, page, i);
    EntryLeads(nodes, of, files, disk, page, i);
  }

  lemma OutputFramed(nodes: seq<ChipInfo>, of: map<ChipInfo, nat>, files: seq<Scanned>, disk: map<string, seq<Byte>>,
                     page: nat)
    requires page > 0 && Listed(nodes, of, files) && |Output(nodes, of, files, disk, page)| < U32Size
    ensures Framed(Output(nodes, of, files, disk, page), |nodes|, page)
  {
    hide Registry, Image, AllOffsets, Index, LE32, FromLittle, AllBlobs;
    OutputLength(nodes, page, Sizes(of, files, page), Contents(of, files, disk));
    FrontReadsBack(nodes, page, Sizes(of, files, page), Contents(of, files, disk));
    var image, start := Output(nodes, of, files, disk, page), Padded(16 + 20 * |nodes|, page);
    hide Output, Padded;
    forall i | 16 + 20 * |nodes| <= i < start
      ensures image[i] == 0
    {
      assert image[16 + 20 * |nodes|..start][i - (16 + 20 * |nodes|)] == 0;
    }
  }

  lemma OutputLength(nodes: seq<ChipInfo>, page: nat, size: map<ChipInfo, nat>, content: map<ChipInfo, seq<Byte>>)
    requires page > 0
    ensures |nodes| < |Image(nodes, page, size, content)|
  {
  }

  /** The i-th entry is that of the i-th node. */
  ghost predicate EntryIs(image: seq<Byte>, i: nat, id: Id, files: seq<Scanned>, disk: map<string, seq<Byte>>,
                          page: nat)
    requires page > 0
  {
    EntryHolds(image, i, files, disk, page) && ReadEntry(image, i).id == id
  }

  lemma TableOfNodes(image: seq<Byte>, nodes: seq<ChipInfo>, files: seq<Scanned>, disk: map<string, seq<Byte>>,
                     page: nat)
    requires page > 0 && Sorted(nodes) && Framed(image, |nodes|, page) && |nodes| == |Registry(files, |files|)|
    requires forall i :: 0 <= i < |nodes| ==> EntryIs(image, i, nodes[i].id, files, disk, page)
    requires forall id :: id in Registry(files, |files|) ==> Contains(nodes, id)
    ensures TableIs(image, files, disk, page)
  {
    hide Registry, Framed, LeadsTo, ReadEntry, Less, FileOf;
    forall i, j | 0 <= i < j < |nodes|
      ensures 12 + 20 * j + 20 <= |image| && Less(ReadEntry(image, i).id, ReadEntry(image, j).id)
    {
      assert EntryIs(image, i, nodes[i].id, files, disk, page) && EntryIs(image, j, nodes[j].id, files, disk, page);
    }
    forall i | 0 <= i < |nodes|
      ensures EntryHolds(image, i, files, disk, page)
    {
      assert EntryIs(image, i, nodes[i].id, files, disk, page);
    }
    forall id | id in Registry(files, |files|)
      ensures exists i :: 0 <= i < |nodes| && 12 + 20 * i + 20 <= |image| && ReadEntry(image, i).id == id
    {
      var i :| 0 <= i < |nodes| && nodes[i].id == id;
      assert EntryIs(image, i, nodes[i].id, files, disk, page);
    }
  }

  lemma OutputTable(nodes: seq<ChipInfo>, of: map<ChipInfo, nat>, files: seq<Scanned>, disk: map<string, seq<Byte>>,
                    page: nat)
    requires page > 0 && Sorted(nodes) && Listed(nodes, of, files) && Stable(files, disk, page)
    requires |Output(nodes, of, files, disk, page)| < U32Size && forall x :: x in Registry(files, |files|) ==> IdFits(x)
    ensures TableIs(Output(nodes, of, files, disk, page), files, disk, page)
  {
    hide Registry, Output, Stable, IdFits, Framed, EntryHolds, ReadEntry, Less, TableIs;
    var image := Output(nodes, of, files, disk, page);
    RegistryCount(nodes, of, Registry(files, |files|));
    OutputFramed(nodes, of, files, disk, page);
    forall i | 0 <= i < |nodes|
      ensures EntryIs(image, i, nodes[i].id, files, disk, page)
    {
      NodeEntry(nodes, of, files, disk, page, i);
    }
    TableOfNodes(image, nodes, files, disk, page);
  }

  /** The whole tool: an image is kept exactly when something is registered and no file that
      owns an id changed, and then its table is the registry. */
  method Combine(files: seq<Scanned>, page: nat, disk: map<string, seq<Byte>>) returns (image: Option<seq<Byte>>)
    requires page > 0 && forall x :: x in Registry(files, |files|) ==> IdFits(x)
    ensures image.Some? <==> Registry(files, |files|) != map[] && Stable(files, disk, page)
    ensures image.Some? && |image.value| < U32Size ==> TableIs(image.value, files, disk, page)
  {
    hide *;
    ghost var nodes, of;
    image, nodes, of := Build(files, page, disk);
    StableMeans(nodes, of, files, disk, page);
    if image.Some? && |image.value| < U32Size {
      OutputTable(nodes, of, files, disk, page);
    }
  }
}
