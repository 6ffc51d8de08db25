/** The work queue and the unsolicited-response callbacks of libs/aGPS/lib/atc.c. */
module WorkQueue {
  import opened Options

  class Item<T> {
    var next: Item?<T>
    const data: T

    constructor (data: T)
      ensures this.data == data && next == null
    {
      this.data := data;
      next := null;
    }
  }

  /** The i-th item, null outside. */
  ghost function At<T>(items: seq<Item<T>>, i: int): Item?<T> {
    if 0 <= i < |items| then items[i] else null
  }

  ghost predicate Distinct<T>(items: seq<Item<T>>) {
    forall i, j :: 0 <= i < j < |items| ==> items[i] != items[j]
  }

  /** The data of the items. */
  ghost function Data<T>(items: seq<Item<T>>): (c: seq<T>)
    ensures |c| == |items|
  {
    seq(|items|, i requires 0 <= i < |items| => items[i].data)
  }

  lemma DataSplit<T>(items: seq<Item<T>>, k: nat)
    requires k <= |items|
    ensures Data(items[..k]) == Data(items)[..k] && Data(items[k..]) == Data(items)[k..]
  {
  }

  lemma DataJoin<T>(a: seq<Item<T>>, b: seq<Item<T>>)
    ensures Data(a + b) == Data(a) + Data(b)
  {
  }

  class Queue<T> {
    var head: Item?<T>
    var tail: Item?<T>
    var itemCount: int
    ghost var Items: seq<Item<T>>  // the linked items, head first

    /** head and the next fields run through Items, and tail is the last of them. */
    ghost predicate Valid()
      reads this, Items`next
    {
      && Distinct(Items)
      && (forall i {:trigger Items[i].next} :: 0 <= i < |Items| ==> Items[i].next == At(Items, i + 1))
      && head == At(Items, 0)
      && tail == At(Items, |Items| - 1)
    }

    ghost function Contents(): (c: seq<T>)
      reads this
    {
      Data(Items)
    }

    constructor ()
      ensures Valid() && Items == []
    {
      head, tail, itemCount := null, null, 0;
      Items := [];
    }

    /** work_queue_add: the item goes behind all others. */
    method Add(data: T) returns (item: Item<T>)
      requires Valid()
      modifies this, Items
      ensures Valid() && fresh(item) && item.data == data
      ensures Items == old(Items) + [item]
      ensures Contents() == old(Contents()) + [data]
    {
      item := new Item(data);
      if head == null {
        head, tail := item, item;
        itemCount := 1;
      } else {
        tail.next := item;
        tail := item;
        itemCount := itemCount + 1;
      }
      DataJoin(Items, [item]);
      Items := Items + [item];
    }

    /** work_queue_pop: takes the first item. */
    method Pop() returns (data: Option<T>)
      requires Valid()
      modifies this
      ensures Valid()
      ensures old(Items) == [] ==> data == None && Items == []
      ensures old(Items) != [] ==> data == Some(old(Contents())[0]) && Items == old(Items)[1..]
      ensures old(Items) != [] ==> Contents() == old(Contents())[1..]
    {
      if head == null {
        return None;
      }
      data := Some(head.data);
      DataSplit(Items, 1);
      UnlinkHead();
    }

    lemma HeadIsFirst()
      requires Valid()
      ensures if head == null then Items == [] else Items != [] && Items[0] == head
    {
    }

    /** Lines 88-96: the item and the one before it. */
    method Locate(item: Item<T>) returns (prev: Item<T>, curr: Item?<T>, ghost k: nat)
      requires Valid() && head != null && head != item
      ensures curr == null ==> item !in Items
      ensures curr != null ==> curr == item && 1 <= k < |Items| && Items[k] == item && Items[k - 1] == prev
    {
      prev, curr := head, head.next;
      k := 1;
      while curr != null
        invariant 1 <= k <= |Items| && prev == Items[k - 1] && curr == At(Items, k)
        invariant item !in Items[..k]
        decreases |Items| - k
      {
        if curr == item {
          return;
        }
        prev := curr;
        curr := curr.next;
        k := k + 1;
      }
    }

    /** Lines 103-106. */
    method UnlinkAfter(prev: Item<T>, curr: Item<T>, ghost k: nat)
      requires Valid() && 1 <= k < |Items| && Items[k] == curr && Items[k - 1] == prev
      modifies this`tail, this`Items, prev
      ensures Valid() && Items == old(Items)[..k] + old(Items)[k + 1..]
    {
      ghost var rest := Items[..k] + Items[k + 1..];
      assert forall i :: 0 <= i < |rest| ==> rest[i] == Items[if i < k then i else i + 1];
      prev.next := curr.next;
      if tail == curr {
        tail := prev;
      }
      Items := rest;
    }

    /** Lines 85-86 and 109-111. */
    method UnlinkHead()
      requires Valid() && head != null
      modifies this`head, this`tail, this`Items
      ensures Valid() && Items == old(Items)[1..]
    {
      head := head.next;
      if head == null {
        tail := null;
      }
      Items := Items[1..];
    }

    /** work_queue_delete: takes out the given item, or nothing when it is not in the queue. */
    method Delete(item: Item?<T>) returns (data: Option<T>, ghost k: nat)
      requires Valid()
      modifies this, Items
      ensures Valid()
      ensures item !in old(Items) ==> data == None && Items == old(Items)
      ensures item in old(Items) ==> k < |old(Items)| && old(Items)[k] == item && data == Some(item.data)
      ensures item in old(Items) ==> Items == old(Items)[..k] + old(Items)[k + 1..]
    {
      k := 0;
      HeadIsFirst();
      hide Valid;
      if head == null || item == null {
        return None, k;
      }
      data := Some(item.data);
      if head == item {
        UnlinkHead();
        assert old(Items)[..0] + old(Items)[1..] == old(Items)[1..];
      } else {
        var prev, curr;
        prev, curr, k := Locate(item);
        if curr == null {
          return None, k;
        }
        UnlinkAfter(prev, curr, k);
      }
    }
  }

  // ------------------------------------------------------------------ callbacks

  /** What to call for lines with a prefix; callbacks are told apart by number. */
  datatype Registration = Registration(prefix: string, callback: Option<nat>)

  /** The calls a line makes, for the registrations in the queue. */
  ghost function Calls(regs: seq<Registration>, line: string): (c: seq<nat>) {
    if regs == [] then []
    else
      var last := regs[|regs| - 1];
      Calls(regs[..|regs| - 1], line)
      + if last.prefix <= line && last.callback.Some? then [last.callback.value] else []
  }

  /** strStartsWith on strings without their terminators. */
  method StartsWith(line: string, prefix: string) returns (b: bool)
    ensures b <==> prefix <= line
  {
    var i := 0;
    while i < |line| && i < |prefix|
      invariant i <= |line| && i <= |prefix| && line[..i] == prefix[..i]
    {
      if line[i] != prefix[i] {
        return false;
      }
      i := i + 1;
    }
    return i == |prefix|;
  }

  /** atc_register_unsolicited. */
  method Register(queue: Queue<Registration>, prefix: string, callback: Option<nat>)
    requires queue.Valid()
    modifies queue, queue.Items
    ensures queue.Valid()
    ensures queue.Contents() == old(queue.Contents()) + [Registration(prefix, callback)]
  {
    var item := queue.Add(Registration(prefix, callback));
  }

  /** match_unsolicited_cb: calls the callbacks whose prefix the line has, in the order of
      registration. */
  method MatchUnsolicited(queue: Queue<Registration>, line: string) returns (calls: seq<nat>)
    requires queue.Valid()
    ensures calls == Calls(queue.Contents(), line)
  {
    calls := [];
    var curr := queue.head;
    ghost var k := 0;
    ghost var regs := queue.Contents();
    while curr != null
      invariant k <= |regs| && curr == At(queue.Items, k) && calls == Calls(regs[..k], line)
      decreases |regs| - k
    {
      var node := curr.data;
      var starts := StartsWith(line, node.prefix);
      if starts {
        if node.callback.Some? {
          calls := calls + [node.callback.value];
        }
      }
      assert regs[..k + 1][..k] == regs[..k];
      curr := curr.next;
      k := k + 1;
    }
    assert regs[..k] == regs;
  }

  /** Where a callback is registered with a prefix of the line. */
  ghost function Matches(regs: seq<Registration>, line: string, callback: nat): set<nat> {
    set i: nat | i < |regs| && regs[i].prefix <= line && regs[i].callback == Some(callback)
  }

  lemma NoCalls(line: string, callback: nat)
    ensures Matches([], line, callback) == {} && Calls([], line) == []
  {
  }

  lemma MatchesNext(regs: seq<Registration>, line: string, callback: nat)
    requires regs != []
    ensures var n := |regs| - 1;
            Matches(regs, line, callback)
            == Matches(regs[..n], line, callback)
               + if regs[n].prefix <= line && regs[n].callback == Some(callback) then {n} else {}
    ensures |regs| - 1 !in Matches(regs[..|regs| - 1], line, callback)
  {
  }

  /** A callback is called exactly once for each of those registrations. */
  lemma {:induction false} CallsCount(regs: seq<Registration>, line: string, callback: nat)
    ensures multiset(Calls(regs, line))[callback] == |Matches(regs, line, callback)|
  {
    hide Matches, Calls;
    if regs == [] {
      NoCalls(line, callback);
    } else {
      var last := regs[|regs| - 1];
      var before := regs[..|regs| - 1];
      CallsCount(before, line, callback);
      MatchesNext(regs, line, callback);
      CallsNext(before, last, line, callback);
      assert regs == before + [last];
    }
  }

  lemma CallsNext(before: seq<Registration>, last: Registration, line: string, callback: nat)
    ensures multiset(Calls(before + [last], line))[callback]
         == multiset(Calls(before, line))[callback]
            + if last.prefix <= line && last.callback == Some(callback) then 1 else 0
  {
    assert (before + [last])[..|before|] == before;
  }

  /** A callback is called if it is registered with a prefix of the line. */
  lemma {:induction false} CallsAreMatches(regs: seq<Registration>, line: string, callback: nat)
    ensures callback in Calls(regs, line)
      <==> exists r :: r in regs && r.prefix <= line && r.callback == Some(callback)
  {
    if regs != [] {
      CallsAreMatches(regs[..|regs| - 1], line, callback);
      assert regs == regs[..|regs| - 1] + [regs[|regs| - 1]];
    }
  }

  /** Calls come in the order of registration. */
  lemma {:induction false} CallsInOrder(regs: seq<Registration>, more: seq<Registration>, line: string)
    ensures Calls(regs + more, line) == Calls(regs, line) + Calls(more, line)
  {
    if more == [] {
      assert regs + more == regs;
    } else {
      assert (regs + more)[..|regs + more| - 1] == regs + more[..|more| - 1];
      CallsInOrder(regs, more[..|more| - 1], line);
    }
  }
}
