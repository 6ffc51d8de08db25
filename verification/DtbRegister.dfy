/** Registration in dtbtool/dtbtool.c: which chips end up in the list, and for which file.
    The tag line of a file is taken as parsed: the ids in it, in order. */
module DtbRegister {
  import opened ChipList
  import opened DtbLayout

  /** A .dtb file as readdir, the tag scan and stat report it; no ids when the scan failed. */
  datatype Scanned = Scanned(name: string, ids: seq<Id>, size: nat)

  // ------------------------------------------------------------------ who owns an id

  ghost function IdSet(ids: seq<Id>): set<Id> {
    set id | id in ids
  }

  /** The ids nobody has yet go to file f. */
  ghost function Claim(reg: map<Id, nat>, ids: set<Id>, f: nat): (r: map<Id, nat>)
    ensures r.Keys == reg.Keys + ids
  {
    map id | id in reg.Keys + ids :: if id in reg then reg[id] else f
  }

  lemma ClaimOne(reg: map<Id, nat>, ids: set<Id>, id: Id, f: nat)
    ensures var r := Claim(reg, ids, f); Claim(reg, ids + {id}, f) == if id in r then r else r[id := f]
  {
    var r := Claim(reg, ids, f);
    if id in r {
      assert ids + {id} + reg.Keys == ids + reg.Keys;
    }
  }

  lemma ClaimNone(reg: map<Id, nat>, f: nat)
    ensures Claim(reg, {}, f) == reg
  {
  }

  /** A file takes part when it has ids and contents and its first id is still free. */
  predicate Accepted(reg: map<Id, nat>, file: Scanned) {
    file.ids != [] && file.size != 0 && file.ids[0] !in reg
  }

  /** The file each id belongs to: the first that could claim it. */
  ghost function Registry(files: seq<Scanned>, f: nat): map<Id, nat>
    requires f <= |files|
  {
    if f == 0 then map[]
    else
      var reg, file := Registry(files, f - 1), files[f - 1];
      if Accepted(reg, file) then Claim(reg, IdSet(file.ids), f - 1) else reg
  }

  /** File g takes part: it has ids and contents, and its first id is its own. */
  ghost predicate TakesPart(files: seq<Scanned>, reg: map<Id, nat>, g: nat)
    requires g < |files|
  {
    files[g].ids != [] && files[g].size != 0 && files[g].ids[0] in reg && reg[files[g].ids[0]] == g
  }

  /** Without going through the files in turn: an id belongs to the first of the files that take
      part and have it, every id of a file that takes part belongs to one, and a file with ids
      and contents takes part unless its first id belongs to an earlier one. */
  lemma {:induction false} RegistryMeans(files: seq<Scanned>, n: nat)
    requires n <= |files|
    ensures var reg := Registry(files, n);
      && (forall id :: id in reg ==> reg[id] < n && TakesPart(files, reg, reg[id]) && id in files[reg[id]].ids)
      && (forall g, id :: 0 <= g < n && TakesPart(files, reg, g) && id in files[g].ids ==> id in reg && reg[id] <= g)
      && (forall g :: 0 <= g < n && files[g].ids != [] && files[g].size != 0 ==>
            files[g].ids[0] in reg && reg[files[g].ids[0]] <= g)
  {
    if n > 0 {
      RegistryMeans(files, n - 1);
      RegistryNext(files, n - 1);
      var before, reg, file := Registry(files, n - 1), Registry(files, n), files[n - 1];
      hide Registry;
      forall g | 0 <= g < n - 1
        ensures TakesPart(files, reg, g) <==> TakesPart(files, before, g)
      {
      }
      assert TakesPart(files, reg, n - 1) <==> Accepted(before, file);
      hide TakesPart;
    }
  }

  lemma RegistryNext(files: seq<Scanned>, n: nat)
    requires n < |files|
    ensures var before, reg, file := Registry(files, n), Registry(files, n + 1), files[n];
      && (forall id :: id in before ==> id in reg && reg[id] == before[id])
      && (forall id :: id in reg && id !in before ==> Accepted(before, file) && reg[id] == n && id in file.ids)
      && (Accepted(before, file) ==> forall id :: id in file.ids ==> id in reg)
  {
  }

  // ------------------------------------------------------------------ the list against the registry

  /** The nodes are the ids of the registry, each with the master of its file. */
  ghost predicate Registered(nodes: seq<ChipInfo>, of: map<ChipInfo, nat>, reg: map<Id, nat>) {
    && (forall n :: n in nodes ==> n.id in reg && n.master in of && of[n.master] == reg[n.id])
    && (forall id :: id in reg ==> Contains(nodes, id))
  }

  lemma RegisteredAdd(nodes: seq<ChipInfo>, c: ChipInfo, k: nat, of: map<ChipInfo, nat>, reg: map<Id, nat>)
    requires Registered(nodes, of, reg) && c.master in of && k <= |nodes| && !Contains(nodes, c.id)
    ensures Registered(nodes[..k] + [c] + nodes[k..], of, reg[c.id := of[c.master]])
  {
    var r := nodes[..k] + [c] + nodes[k..];
    Inserted(nodes, c, k, r);
    forall id | id in reg[c.id := of[c.master]]
      ensures Contains(r, id)
    {
      if id == c.id {
        assert r[k].id == id;
      } else {
        var i :| 0 <= i < |nodes| && nodes[i].id == id;
        assert r[if i < k then i else i + 1].id == id;
      }
    }
    forall n | n in r
      ensures n == c || n in nodes
    {
    }
  }

  lemma NotYet(nodes: seq<ChipInfo>, of: map<ChipInfo, nat>, reg: map<Id, nat>, id: Id)
    requires Registered(nodes, of, reg)
    ensures Contains(nodes, id) <==> id in reg
  {
  }

  /** A new master changes nothing for the nodes there are. */
  lemma NewMaster(nodes: seq<ChipInfo>, of: map<ChipInfo, nat>, reg: map<Id, nat>, m: ChipInfo, f: nat)
    requires Registered(nodes, of, reg) && m !in of
    ensures Registered(nodes, of[m := f], reg)
  {
  }

  /** What is recorded in the masters: the files by number, and what the two passes start from. */
  ghost predicate Recorded(of: map<ChipInfo, nat>, files: seq<Scanned>, page: nat)
    requires page > 0
    reads of.Keys`dtbFile, of.Keys`dtbSize, of.Keys`masterOffset, of.Keys`wroteDtb
  {
    forall m :: m in of ==>
      && of[m] < |files| && m.dtbFile == files[of[m]].name && m.dtbSize == Padded(files[of[m]].size, page)
      && m.masterOffset == 0 && !m.wroteDtb
  }

  /** The masters are nodes, one a file, among the first f files. */
  ghost predicate Owners(of: map<ChipInfo, nat>, nodes: seq<ChipInfo>, f: nat) {
    && (forall m :: m in of ==> m in nodes && m.master == m && of[m] < f)
    && (forall m, m' :: m in of && m' in of && of[m] == of[m'] ==> m == m')
  }

  // ------------------------------------------------------------------ the code

  /** Lines 289-313: the chips of one file.  Each further one goes right behind the first. */
  method ChipsOf(ids: seq<Id>) returns (chips: seq<ChipInfo>)
    requires ids != []
    ensures |chips| == |ids| && fresh(set c | c in chips) && Distinct(chips)
    ensures chips[0].id == ids[0] && forall i :: 1 <= i < |ids| ==> chips[i].id == ids[|ids| - i]
    ensures forall c :: c in chips ==> c.master == chips[0] && c.masterOffset == 0 && !c.wroteDtb
  {
    var chip := new ChipInfo.First(ids[0]);
    chips := [chip];
    var n := 1;
    while n < |ids|
      invariant 1 <= n == |chips| <= |ids|
      invariant chips[0].id == ids[0] && forall i :: 1 <= i < n ==> chips[i].id == ids[n - i]
      invariant fresh(set c | c in chips) && Distinct(chips) && chips[0] == chip
      invariant forall i {:trigger chips[i]} :: 0 <= i < n ==>
        chips[i].master == chip && chips[i].masterOffset == 0 && !chips[i].wroteDtb
    {
      var tmp := new ChipInfo.Further(ids[n], chip);
      chips := [chip] + [tmp] + chips[1..];
      n := n + 1;
    }
  }

  lemma InsertedMembers(nodes: seq<ChipInfo>, c: ChipInfo, k: nat)
    requires k <= |nodes|
    ensures var r := nodes[..k] + [c] + nodes[k..];
      c in r && |r| == |nodes| + 1 && forall n :: n in r <==> n in nodes || n == c
  {
    assert nodes == nodes[..k] + nodes[k..];
  }

  /** Lines 431-437 and 418, for one chip; all are the chips there are. */
  method AddChip(list: List, c: ChipInfo, ghost all: set<ChipInfo>, ghost of: map<ChipInfo, nat>,
                 ghost reg: map<Id, nat>)
    returns (ok: bool)
    requires list.Valid() && c !in list.Nodes && c.master in of && Registered(list.Nodes, of, reg)
    requires c in all && forall n :: n in list.Nodes ==> n in all
    modifies list, all`prev, all`next
    ensures list.Valid() && (ok <==> c.id !in reg)
    ensures Registered(list.Nodes, of, if ok then reg[c.id := of[c.master]] else reg)
    ensures |list.Nodes| == |old(list.Nodes)| + if ok then 1 else 0
    ensures !ok ==> list.Nodes == old(list.Nodes)
    ensures ok ==> c in list.Nodes
    ensures forall n :: n in list.Nodes ==> n in old(list.Nodes) || n == c
    ensures forall n :: n in old(list.Nodes) ==> n in list.Nodes
  {
    NotYet(list.Nodes, of, reg, c.id);
    hide Registered, List.Valid, Contains;
    ghost var nodes, k := list.Nodes, 0;
    ok, k := list.Add(c);
    if ok {
      RegisteredAdd(nodes, c, k, of, reg);
      InsertedMembers(nodes, c, k);
    }
  }

  /** The ids of the first i chips. */
  ghost function IdsOf(chips: seq<ChipInfo>, i: nat): set<Id>
    requires i <= |chips|
  {
    if i == 0 then {} else IdsOf(chips, i - 1) + {chips[i - 1].id}
  }

  /** The nodes are the registered ids with the first i chips of file f. */
  ghost predicate Added(nodes: seq<ChipInfo>, chips: seq<ChipInfo>, i: nat, of: map<ChipInfo, nat>, reg: map<Id, nat>,
                        f: nat)
    requires i <= |chips|
  {
    Registered(nodes, of, Claim(reg, IdsOf(chips, i), f))
  }

  lemma AddedNext(nodes: seq<ChipInfo>, chips: seq<ChipInfo>, i: nat, of: map<ChipInfo, nat>, reg: map<Id, nat>, f: nat)
    requires i < |chips|
    requires var reg' := Claim(reg, IdsOf(chips, i), f);
             Registered(nodes, of, if chips[i].id !in reg' then reg'[chips[i].id := f] else reg')
    ensures Added(nodes, chips, i + 1, of, reg, f)
  {
    hide Registered;
    ClaimOne(reg, IdsOf(chips, i), chips[i].id, f);
  }

  /** Lines 430-438: the further chips of a file, as far as their ids are free. */
  method AddFurther(list: List, chips: seq<ChipInfo>, ghost all: set<ChipInfo>, ghost of: map<ChipInfo, nat>,
                    ghost reg: map<Id, nat>, ghost f: nat)
    returns (added: nat)
    requires list.Valid() && chips != [] && Distinct(chips) && Added(list.Nodes, chips, 1, of, reg, f)
    requires forall i :: 1 <= i < |chips| ==>
      chips[i] !in list.Nodes && chips[i].master in of && of[chips[i].master] == f
    requires (forall n :: n in list.Nodes ==> n in all) && forall i :: 1 <= i < |chips| ==> chips[i] in all
    modifies list, all`prev, all`next
    ensures list.Valid() && Added(list.Nodes, chips, |chips|, of, reg, f)
    ensures |list.Nodes| == |old(list.Nodes)| + added
    ensures forall n :: n in list.Nodes ==> n in all
    ensures forall n :: n in old(list.Nodes) ==> n in list.Nodes
  {
    hide List.Valid, Registered, Claim, IdsOf;
    added := 0;
    var i := 1;
    while i < |chips|
      invariant 1 <= i <= |chips|
      invariant list.Valid() && Added(list.Nodes, chips, i, of, reg, f)
      invariant |list.Nodes| == |old(list.Nodes)| + added
      invariant forall n :: n in list.Nodes ==> n in all
      invariant forall n :: n in old(list.Nodes) ==> n in list.Nodes
      invariant forall j :: i <= j < |chips| ==> chips[j] !in list.Nodes
    {
      var ok := AddChip(list, chips[i], all, of, Claim(reg, IdsOf(chips, i), f));
      AddedNext(list.Nodes, chips, i, of, reg, f);
      if ok {
        added := added + 1;
      }
      i := i + 1;
    }
  }

  lemma SameIds(chips: seq<ChipInfo>, ids: seq<Id>)
    requires |chips| == |ids| > 0 && chips[0].id == ids[0]
    requires forall i :: 1 <= i < |ids| ==> chips[i].id == ids[|ids| - i]
    ensures IdsOf(chips, |chips|) == IdSet(ids)
  {
    forall id
      ensures id in IdsOf(chips, |chips|) <==> id in ids
    {
      InIdsOf(chips, |chips|, id);
      if id in ids {
        var i :| 0 <= i < |ids| && ids[i] == id;
        assert chips[if i == 0 then 0 else |ids| - i].id == id;
      }
    }
  }

  lemma {:induction false} InIdsOf(chips: seq<ChipInfo>, k: nat, id: Id)
    requires k <= |chips|
    ensures id in IdsOf(chips, k) <==> exists i :: 0 <= i < k && chips[i].id == id
  {
    if k > 0 {
      InIdsOf(chips, k - 1, id);
    }
  }

  /** After the first f files. */
  ghost predicate State(list: List, all: set<ChipInfo>, of: map<ChipInfo, nat>, files: seq<Scanned>, f: nat, page: nat)
    requires page > 0
    reads list, list.Nodes, of.Keys
  {
    && f <= |files| && list.Valid()
    && Registered(list.Nodes, of, Registry(files, f))
    && Recorded(of, files, page) && Owners(of, list.Nodes, f)
    && of.Keys <= all && forall n :: n in list.Nodes ==> n in all
  }

  lemma FirstAdded(nodes: seq<ChipInfo>, chips: seq<ChipInfo>, of: map<ChipInfo, nat>, reg: map<Id, nat>, f: nat)
    requires chips != [] && chips[0].id !in reg && Registered(nodes, of, reg[chips[0].id := f])
    ensures Added(nodes, chips, 1, of, reg, f)
  {
    ClaimNone(reg, f);
    ClaimOne(reg, {}, chips[0].id, f);
    assert IdsOf(chips, 1) == {} + {chips[0].id};
  }

  lemma NewOwner(of: map<ChipInfo, nat>, nodes: seq<ChipInfo>, nodes': seq<ChipInfo>, m: ChipInfo, f: nat)
    requires Owners(of, nodes, f) && (forall n :: n in nodes ==> n in nodes') && m in nodes' && m.master == m
    ensures Owners(of[m := f], nodes', f + 1)
  {
  }

  lemma Skipped(list: List, all: set<ChipInfo>, of: map<ChipInfo, nat>, files: seq<Scanned>, f: nat, page: nat)
    requires page > 0 && State(list, all, of, files, f, page) && f < |files|
    requires files[f].ids == [] || files[f].size == 0 || files[f].ids[0] in Registry(files, f)
    ensures State(list, all, of, files, f + 1, page)
  {
  }

  /** Lines 430-438: a file whose first chip is in the list. */
  method Record(list: List, chip: ChipInfo, chips: seq<ChipInfo>, file: Scanned, page: nat, ghost all: set<ChipInfo>,
                ghost of: map<ChipInfo, nat>,
                ghost files: seq<Scanned>, ghost f: nat)
    returns (added: nat)
    requires page > 0 && list.Valid() && chips != [] && chips[0] == chip && Distinct(chips) && f < |files|
    requires files[f] == file
    requires chip in of && of[chip] == f && chip.masterOffset == 0 && !chip.wroteDtb
    requires Recorded(of - {chip}, files, page)
    requires forall i :: 1 <= i < |chips| ==> chips[i] !in list.Nodes && chips[i].master == chip
    requires (forall n :: n in list.Nodes ==> n in all) && forall i :: 0 <= i < |chips| ==> chips[i] in all
    requires Added(list.Nodes, chips, 1, of, Registry(files, f), f)
    modifies list, all`prev, all`next, chip`dtbSize, chip`dtbFile
    ensures list.Valid() && Recorded(of, files, page)
    ensures Added(list.Nodes, chips, |chips|, of, Registry(files, f), f)
    ensures |list.Nodes| == |old(list.Nodes)| + added
    ensures forall n :: n in list.Nodes ==> n in all
    ensures forall n :: n in old(list.Nodes) ==> n in list.Nodes
  {
    hide Added, Registry, List.Valid;
    chip.dtbSize := file.size + (page - file.size % page);
    chip.dtbFile := file.name;
    assert Recorded(of, files, page) by {
      forall m | m in of
        ensures of[m] < |files| && m.dtbFile == files[of[m]].name && m.dtbSize == Padded(files[of[m]].size, page)
        ensures m.masterOffset == 0 && !m.wroteDtb
      {
        assert m == chip || m in of - {chip};
      }
    }
    hide Recorded;
    added := AddFurther(list, chips, all, of, Registry(files, f), f);
  }

  lemma Accept(list: List, all: set<ChipInfo>, chips: seq<ChipInfo>, of: map<ChipInfo, nat>, files: seq<Scanned>,
               f: nat, page: nat)
    requires page > 0 && list.Valid() && f < |files| && Accepted(Registry(files, f), files[f])
    requires IdsOf(chips, |chips|) == IdSet(files[f].ids)
    requires Added(list.Nodes, chips, |chips|, of, Registry(files, f), f)
    requires Recorded(of, files, page) && Owners(of, list.Nodes, f + 1) && of.Keys <= all
    requires forall n :: n in list.Nodes ==> n in all
    ensures State(list, all, of, files, f + 1, page)
  {
  }

  lemma WithoutNew(of: map<ChipInfo, nat>, m: ChipInfo, f: nat)
    requires m !in of
    ensures of[m := f] - {m} == of
  {
  }

  lemma MoreChips(list: List, all: set<ChipInfo>, all': set<ChipInfo>, of: map<ChipInfo, nat>, files: seq<Scanned>,
                  f: nat, page: nat)
    requires page > 0 && State(list, all, of, files, f, page) && all <= all'
    ensures State(list, all', of, files, f, page) && of.Keys <= all && forall n :: n in list.Nodes ==> n in all
  {
  }

  /** Lines 418-438: the chips of one file; added nodes. */
  method RegisterChips(list: List, chips: seq<ChipInfo>, file: Scanned, page: nat, ghost all: set<ChipInfo>,
                       ghost of: map<ChipInfo, nat>,
                       ghost files: seq<Scanned>, ghost f: nat)
    returns (added: nat, ghost of': map<ChipInfo, nat>)
    requires page > 0 && State(list, all, of, files, f, page) && f < |files| && files[f] == file && file.size != 0
    requires |chips| == |file.ids| > 0 && chips[0].id == file.ids[0] && Distinct(chips)
    requires IdsOf(chips, |chips|) == IdSet(file.ids) && chips[0] !in of
    requires forall c :: c in chips ==>
      c in all && c !in list.Nodes && c.master == chips[0] && c.masterOffset == 0 && !c.wroteDtb
    modifies list, all`prev, all`next, chips`dtbSize, chips`dtbFile
    ensures State(list, all, of', files, f + 1, page)
    ensures |list.Nodes| == |old(list.Nodes)| + added
  {
    ghost var reg, nodes := Registry(files, f), list.Nodes;
    var chip := chips[0];
    NewMaster(list.Nodes, of, reg, chip, f);
    WithoutNew(of, chip, f);
    of' := of[chip := f];
    hide Registry, List.Valid, IdsOf, IdSet, Registered, Added;
    var ok := AddChip(list, chip, all, of', reg);
    if !ok {
      of', added := of, 0;
      Skipped(list, all, of, files, f, page);
      return;
    }
    FirstAdded(list.Nodes, chips, of', reg, f);
    hide Recorded, Owners;
    added := Record(list, chip, chips, file, page, all, of', files, f);
    added := added + 1;
    NewOwner(of, nodes, list.Nodes, chip, f);
    Accept(list, all, chips, of', files, f, page);
  }

  /** Lines 393-438 for one file; added nodes. */
  method RegisterFile(list: List, file: Scanned, page: nat, ghost all: set<ChipInfo>, ghost of: map<ChipInfo, nat>,
                      ghost files: seq<Scanned>, ghost f: nat)
    returns (added: nat, ghost all': set<ChipInfo>, ghost of': map<ChipInfo, nat>)
    requires page > 0 && State(list, all, of, files, f, page) && f < |files| && files[f] == file
    modifies list, all`prev, all`next
    ensures State(list, all', of', files, f + 1, page)
    ensures |list.Nodes| == |old(list.Nodes)| + added
    ensures fresh(all' - all)
  {
    hide *;
    added, all', of' := 0, all, of;
    if file.ids == [] || file.size == 0 {
      Skipped(list, all, of, files, f, page);
      return;
    }
    var chips := ChipsOf(file.ids);
    SameIds(chips, file.ids);
    all' := all + set c | c in chips;
    MoreChips(list, all, all', of, files, f, page);
    added, of' := RegisterChips(list, chips, file, page, all', of, files, f);
  }
}
