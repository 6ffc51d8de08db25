/** The layout of the combined file of dtbtool/dtbtool.c, as a function of the chip list:
    which blob comes where, and what the index says about it. */
module DtbLayout {
  import opened Arithmetic
  import opened Buffers
  import opened Bytes
  import opened ChipList

  /** The masters of the first k nodes in the order in which they first occur. */
  ghost function Masters(nodes: seq<ChipInfo>, k: nat): (m: seq<ChipInfo>)
    requires k <= |nodes|
    ensures |m| <= k
  {
    if k == 0 then []
    else
      var before, last := Masters(nodes, k - 1), nodes[k - 1].master;
      if last in before then before else before + [last]
  }

  lemma {:induction false} MastersDistinct(nodes: seq<ChipInfo>, k: nat)
    requires k <= |nodes|
    ensures Distinct(Masters(nodes, k))
  {
    if k > 0 {
      MastersDistinct(nodes, k - 1);
    }
  }

  lemma {:induction false} MastersComplete(nodes: seq<ChipInfo>, k: nat, m: ChipInfo)
    requires k <= |nodes|
    ensures m in Masters(nodes, k) <==> exists i :: 0 <= i < k && nodes[i].master == m
  {
    if k > 0 {
      MastersComplete(nodes, k - 1, m);
    }
  }

  /** The masters of all nodes. */
  ghost function AllMasters(nodes: seq<ChipInfo>): (m: seq<ChipInfo>)
  {
    Masters(nodes, |nodes|)
  }

  /** The blobs are those of the masters of the nodes, each once. */
  lemma MastersOnce(nodes: seq<ChipInfo>, m: ChipInfo)
    ensures multiset(AllMasters(nodes))[m] == if exists i :: 0 <= i < |nodes| && nodes[i].master == m then 1 else 0
  {
    MastersDistinct(nodes, |nodes|);
    MastersComplete(nodes, |nodes|, m);
    OnceIn(AllMasters(nodes), m);
  }

  lemma {:induction false} OnceIn(s: seq<ChipInfo>, m: ChipInfo)
    requires Distinct(s)
    ensures multiset(s)[m] == if m in s then 1 else 0
  {
    if s != [] {
      var front, last := s[..|s| - 1], s[|s| - 1];
      OnceIn(front, m);
      assert s == front + [last];
    }
  }

  /** An entry of a table, zero when there is none. */
  ghost function Get(table: map<ChipInfo, nat>, m: ChipInfo): nat {
    if m in table then table[m] else 0
  }

  /** The bytes the blobs of the first j masters take. */
  ghost function Total(ms: seq<ChipInfo>, j: nat, size: map<ChipInfo, nat>): nat
    requires j <= |ms|
  {
    if j == 0 then 0 else Total(ms, j - 1, size) + Get(size, ms[j - 1])
  }

  lemma {:induction false} TotalGrows(ms: seq<ChipInfo>, j: nat, k: nat, size: map<ChipInfo, nat>)
    requires j < k <= |ms|
    ensures Total(ms, j, size) + Get(size, ms[j]) <= Total(ms, k, size)
  {
    if j + 1 < k {
      TotalGrows(ms, j, k - 1, size);
    }
  }

  lemma {:induction false} TotalOfPart(ms: seq<ChipInfo>, more: seq<ChipInfo>, j: nat, size: map<ChipInfo, nat>)
    requires j <= |ms|
    ensures Total(ms + more, j, size) == Total(ms, j, size)
  {
    if j > 0 {
      TotalOfPart(ms, more, j - 1, size);
    }
  }

  lemma {:induction false} TotalAligned(ms: seq<ChipInfo>, j: nat, size: map<ChipInfo, nat>, page: nat)
    requires j <= |ms| && page > 0 && forall m :: m in ms ==> Get(size, m) % page == 0
    ensures Total(ms, j, size) % page == 0
  {
    if j > 0 {
      TotalAligned(ms, j - 1, size, page);
      SumAligned(Total(ms, j - 1, size), Get(size, ms[j - 1]), page);
    }
  }

  lemma SumAligned(a: nat, b: nat, page: nat)
    requires page > 0 && a % page == 0 && b % page == 0
    ensures (a + b) % page == 0
  {
    var x, y := a / page, b / page;
    assert a + b == (x + y) * page;
    assert ((x + y) * page) % page == 0 by { MultipleAligned(x + y, page); }
  }

  lemma MultipleAligned(n: nat, page: nat)
    requires page > 0
    ensures n * page % page == 0
  {
    QuotientRemainder(n * page, page, n, 0);
  }

  /** offset gives each master the place where its blob starts. */
  ghost predicate Placed(ms: seq<ChipInfo>, size: map<ChipInfo, nat>, offset: map<ChipInfo, nat>, start: nat) {
    forall j :: 0 <= j < |ms| ==> Get(offset, ms[j]) == start + Total(ms, j, size)
  }

  /** One entry of the index table: twenty bytes. */
  ghost function Entry(n: ChipInfo, offset: map<ChipInfo, nat>, size: map<ChipInfo, nat>): (e: seq<Byte>)
    ensures |e| == 20
  {
    LE32(n.id.chipset) + LE32(n.id.platform) + LE32(n.id.revNum) + LE32(Get(offset, n.master))
        + LE32(Get(size, n.master))
  }

  /** The entries of the first k nodes. */
  ghost function Index(nodes: seq<ChipInfo>, k: nat, offset: map<ChipInfo, nat>,
                       size: map<ChipInfo, nat>): (b: seq<Byte>)
    requires k <= |nodes|
    ensures |b| == 20 * k
  {
    if k == 0 then [] else Index(nodes, k - 1, offset, size) + Entry(nodes[k - 1], offset, size)
  }

  lemma {:induction false} IndexEntry(nodes: seq<ChipInfo>, k: nat, offset: map<ChipInfo, nat>,
                                      size: map<ChipInfo, nat>, i: nat)
    requires i < k <= |nodes|
    ensures Index(nodes, k, offset, size)[20 * i..20 * i + 20] == Entry(nodes[i], offset, size)
  {
    hide Entry;
    var index, entry := Index(nodes, k - 1, offset, size), Entry(nodes[k - 1], offset, size);
    if i < k - 1 {
      IndexEntry(nodes, k - 1, offset, size, i);
      InFront(index, entry, 20 * i, 20 * i + 20);
    } else {
      assert (index + entry)[|index|..] == entry;
    }
  }

  /** Entries depend on the offsets of their masters only. */
  lemma {:induction false} IndexSame(nodes: seq<ChipInfo>, k: nat, offset: map<ChipInfo, nat>,
                                     offset': map<ChipInfo, nat>,
                                     size: map<ChipInfo, nat>)
    requires k <= |nodes| && forall m :: m in Masters(nodes, k) ==> Get(offset, m) == Get(offset', m)
    ensures Index(nodes, k, offset, size) == Index(nodes, k, offset', size)
  {
    if k > 0 {
      IndexSame(nodes, k - 1, offset, offset', size);
    }
  }

  /** The size a file takes: zeros up to the next page boundary, a whole page of them when
      it ends on one. */
  function Padded(len: nat, page: nat): (p: nat)
    requires page > 0
    ensures len < p <= len + page && p % page == 0
  {
    var p := len + (page - len % page);
    assert p == (len / page + 1) * page;
    MultipleAligned(len / page + 1, page);
    p
  }

  /** A file's contents with zeros behind. */
  function Blob(content: seq<Byte>, size: nat): (b: seq<Byte>)
    ensures |content| <= size ==> |b| == size && b[..|content|] == content
    ensures |content| <= size ==> forall i :: |content| <= i < size ==> b[i] == 0
  {
    content + Zeros(if |content| <= size then size - |content| else 0)
  }

  /** A file's contents somewhere in an image, with zeros behind up to the size. */
  ghost predicate FileAt(image: seq<Byte>, at: nat, file: seq<Byte>, size: nat) {
    && |file| <= size && at + size <= |image|
    && image[at..at + |file|] == file
    && forall i :: at + |file| <= i < at + size ==> image[i] == 0
  }

  lemma BlobInImage(image: seq<Byte>, at: nat, file: seq<Byte>, size: nat)
    requires |file| <= size && at + size <= |image| && image[at..at + size] == Blob(file, size)
    ensures FileAt(image, at, file, size)
  {
    var b := image[at..at + size];
    assert image[at..at + |file|] == b[..|file|];
    hide Blob;
    forall i | at + |file| <= i < at + size
      ensures image[i] == 0
    {
      assert b[i - at] == 0;
    }
  }

  ghost function Content(content: map<ChipInfo, seq<Byte>>, m: ChipInfo): seq<Byte> {
    if m in content then content[m] else []
  }

  /** The blobs of the first j masters. */
  ghost function Blobs(ms: seq<ChipInfo>, j: nat, size: map<ChipInfo, nat>,
                       content: map<ChipInfo, seq<Byte>>): (b: seq<Byte>)
    requires j <= |ms|
  {
    if j == 0 then []
    else Blobs(ms, j - 1, size, content) + Blob(Content(content, ms[j - 1]), Get(size, ms[j - 1]))
  }

  lemma {:induction false} BlobsOfPart(ms: seq<ChipInfo>, more: seq<ChipInfo>, j: nat, size: map<ChipInfo, nat>,
                                       content: map<ChipInfo, seq<Byte>>)
    requires j <= |ms|
    ensures Blobs(ms + more, j, size, content) == Blobs(ms, j, size, content)
  {
    hide Blob, Content, Get;
    if j > 0 {
      BlobsOfPart(ms, more, j - 1, size, content);
    }
  }

  lemma {:induction false} BlobsLength(ms: seq<ChipInfo>, j: nat, size: map<ChipInfo, nat>,
                                       content: map<ChipInfo, seq<Byte>>)
    requires j <= |ms| && forall m :: m in ms ==> |Content(content, m)| <= Get(size, m)
    ensures |Blobs(ms, j, size, content)| == Total(ms, j, size)
  {
    if j > 0 {
      BlobsLength(ms, j - 1, size, content);
    }
  }

  lemma {:induction false} BlobAt(ms: seq<ChipInfo>, k: nat, size: map<ChipInfo, nat>,
                                  content: map<ChipInfo, seq<Byte>>, j: nat)
    requires forall m :: m in ms ==> |Content(content, m)| <= Get(size, m)
    requires j < k <= |ms|
    ensures var at, m := Total(ms, j, size), ms[j];
            && at + Get(size, m) <= |Blobs(ms, k, size, content)|
            && Blobs(ms, k, size, content)[at..at + Get(size, m)] == Blob(Content(content, m), Get(size, m))
  {
    hide Blob, Get, Content;
    TotalGrows(ms, j, k, size);
    BlobsLength(ms, k, size, content);
    BlobsLength(ms, k - 1, size, content);
    var blobs, blob := Blobs(ms, k - 1, size, content), Blob(Content(content, ms[k - 1]), Get(size, ms[k - 1]));
    if j < k - 1 {
      BlobAt(ms, k - 1, size, content, j);
      InFront(blobs, blob, Total(ms, j, size), Total(ms, j, size) + Get(size, ms[j]));
    } else {
      assert (blobs + blob)[|blobs|..] == blob;
    }
  }
}
