/** The list of chips of dtbtool/dtbtool.c: doubly linked, sorted by (chipset, platform,
    revision) and without duplicates. */
module ChipList {

  /** The triplet a chip is known by. */
  datatype Id = Id(chipset: nat, platform: nat, revNum: nat)

  predicate Less(a: Id, b: Id) {
    a.chipset < b.chipset
    || (a.chipset == b.chipset
        && (a.platform < b.platform || (a.platform == b.platform && a.revNum < b.revNum)))
  }

  /** For numbers of 32 bits: the order of the three numbers written one behind the other. */
  lemma LessIsNumeric(a: Id, b: Id)
    requires a.platform < 0x1_0000_0000 && a.revNum < 0x1_0000_0000
    requires b.platform < 0x1_0000_0000 && b.revNum < 0x1_0000_0000
    ensures Less(a, b)
            <==> (a.chipset * 0x1_0000_0000 + a.platform) * 0x1_0000_0000 + a.revNum
                 < (b.chipset * 0x1_0000_0000 + b.platform) * 0x1_0000_0000 + b.revNum
  {
  }

  class ChipInfo {
    const id: Id
    const master: ChipInfo  // the first chip of the same file
    var dtbSize: nat
    var dtbFile: string
    var prev: ChipInfo?
    var next: ChipInfo?
    var wroteDtb: bool
    var masterOffset: nat

    /** The first chip of a file. */
    constructor First(id: Id)
      ensures this.id == id && master == this
      ensures dtbSize == 0 && dtbFile == "" && !wroteDtb && masterOffset == 0
    {
      this.id, master := id, this;
      dtbSize, dtbFile, wroteDtb, masterOffset := 0, "", false, 0;
      prev, next := null, null;
    }

    constructor Further(id: Id, master: ChipInfo)
      ensures this.id == id && this.master == master
      ensures dtbSize == 0 && dtbFile == "" && !wroteDtb && masterOffset == 0
    {
      this.id, this.master := id, master;
      dtbSize, dtbFile, wroteDtb, masterOffset := 0, "", false, 0;
      prev, next := null, null;
    }
  }

  /** The ids of the nodes are strictly increasing. */
  ghost predicate Sorted(nodes: seq<ChipInfo>) {
    forall i, j :: 0 <= i < j < |nodes| ==> Less(nodes[i].id, nodes[j].id)
  }

  ghost predicate Contains(nodes: seq<ChipInfo>, id: Id) {
    exists i :: 0 <= i < |nodes| && nodes[i].id == id
  }

  lemma SortedInsert(nodes: seq<ChipInfo>, c: ChipInfo, k: nat)
    requires Sorted(nodes) && k <= |nodes|
    requires forall i :: 0 <= i < k ==> Less(nodes[i].id, c.id)
    requires k < |nodes| ==> Less(c.id, nodes[k].id)
    ensures Sorted(nodes[..k] + [c] + nodes[k..]) && !Contains(nodes, c.id) && c !in nodes
  {
    forall i | k <= i < |nodes|
      ensures Less(c.id, nodes[i].id)
    {
      assert i == k || Less(nodes[k].id, nodes[i].id);
    }
  }

  ghost predicate Distinct(nodes: seq<ChipInfo>) {
    forall i, j :: 0 <= i < j < |nodes| ==> nodes[i] != nodes[j]
  }

  lemma Inserted(nodes: seq<ChipInfo>, c: ChipInfo, k: nat, r: seq<ChipInfo>)
    requires k <= |nodes| && r == nodes[..k] + [c] + nodes[k..]
    ensures |r| == |nodes| + 1
    ensures forall i {:trigger r[i]} :: 0 <= i < |r| ==>
      r[i] == if i < k then nodes[i] else if i == k then c else nodes[i - 1]
  {
  }

  ghost function NodeAt(nodes: seq<ChipInfo>, k: nat): ChipInfo? {
    if k < |nodes| then nodes[k] else null
  }

  class List {
    var head: ChipInfo?
    ghost var Nodes: seq<ChipInfo>

    /** next and prev run through the nodes in both directions. */
    ghost predicate Linked()
      reads this, Nodes`prev, Nodes`next
    {
      && (Nodes == [] ==> head == null)
      && (Nodes != [] ==>
            && head == Nodes[0] && Nodes[0].prev == null && Nodes[|Nodes| - 1].next == null
            && (forall i {:trigger Nodes[i].prev} :: 1 <= i < |Nodes| ==> Nodes[i].prev == Nodes[i - 1])
            && (forall i {:trigger Nodes[i].next} :: 0 <= i < |Nodes| - 1 ==> Nodes[i].next == Nodes[i + 1]))
    }

    ghost predicate Valid()
      reads this, Nodes`prev, Nodes`next
    {
      Linked() && Sorted(Nodes)
    }

    /** Following the links from the head visits the nodes in order. */
    lemma Chain()
      requires Valid()
      ensures head == NodeAt(Nodes, 0)
      ensures forall k {:trigger Nodes[k].next} :: 0 <= k < |Nodes| ==> Nodes[k].next == NodeAt(Nodes, k + 1)
    {
    }

    constructor ()
      ensures Valid() && Nodes == []
    {
      head := null;
      Nodes := [];
    }

    /** Lines 170-182: the links around c when it goes in front of x. */
    method Splice(c: ChipInfo, x: ChipInfo)
      requires c != x && x.prev != c && x.prev != x
      modifies this`head, c`prev, c`next, x`prev, (if x.prev == null then {} else {x.prev})`next
      ensures c.next == x && c.prev == old(x.prev) && x.prev == c
      ensures if old(x.prev) == null then head == c else head == old(head) && old(x.prev).next == c
    {
      if x.prev == null {
        c.next := x;
        c.prev := null;
        x.prev := c;
        head := c;
      } else {
        c.next := x;
        c.prev := x.prev;
        x.prev.next := c;
        x.prev := c;
      }
    }

    method InsertBefore(c: ChipInfo, x: ChipInfo, ghost k: nat)
      requires Linked() && Distinct(Nodes) && c !in Nodes && k < |Nodes| && Nodes[k] == x
      modifies this, c`prev, c`next, Nodes`prev, Nodes`next
      ensures Linked() && Nodes == old(Nodes)[..k] + [c] + old(Nodes)[k..]
    {
      Splice(c, x);
      Nodes := Nodes[..k] + [c] + Nodes[k..];
    }

    /** Lines 190-192: puts c behind the last node x. */
    method InsertLast(c: ChipInfo, x: ChipInfo)
      requires Linked() && Distinct(Nodes) && c !in Nodes && Nodes != [] && Nodes[|Nodes| - 1] == x
      modifies this`Nodes, c`prev, c`next, x`next
      ensures Linked() && Nodes == old(Nodes) + [c]
    {
      c.prev := x;
      c.next := null;
      x.next := c;
      Nodes := Nodes + [c];
    }

    /** chip_add: a duplicate is refused, anything else goes where it belongs. */
    method Add(c: ChipInfo) returns (ok: bool, ghost k: nat)
      requires Valid() && c !in Nodes
      modifies this, c`prev, c`next, Nodes`prev, Nodes`next
      ensures Valid()
      ensures ok <==> !Contains(old(Nodes), c.id)
      ensures ok ==> k <= |old(Nodes)| && Nodes == old(Nodes)[..k] + [c] + old(Nodes)[k..]
      ensures !ok ==> Nodes == old(Nodes) && head == old(head)
      ensures !ok ==> forall n :: n in Nodes || n == c ==> n.prev == old(n.prev) && n.next == old(n.next)
    {
      k := 0;
      if head == null {
        head := c;
        c.next := null;
        c.prev := null;
        Nodes := [c];
        return true, 0;
      }
      var x := head;
      while true
        invariant Valid() && Nodes == old(Nodes) && k < |Nodes| && x == Nodes[k]
        invariant forall i :: 0 <= i < k ==> Less(Nodes[i].id, c.id)
        decreases |Nodes| - k
      {
        if c.id.chipset < x.id.chipset
          || (c.id.chipset == x.id.chipset
              && (c.id.platform < x.id.platform
                  || (c.id.platform == x.id.platform && c.id.revNum < x.id.revNum)))
        {
          SortedInsert(Nodes, c, k);
          InsertBefore(c, x, k);
          return true, k;
        }
        if c.id.chipset == x.id.chipset && c.id.platform == x.id.platform && c.id.revNum == x.id.revNum {
          assert Nodes[k].id == c.id;
          return false, k;
        }
        if x.next == null {
          SortedInsert(Nodes, c, |Nodes|);
          InsertLast(c, x);
          k := |old(Nodes)|;
          assert Nodes == old(Nodes)[..k] + [c] + old(Nodes)[k..];
          return true, k;
        }
        x := x.next;
        k := k + 1;
      }
    }
  }
}
