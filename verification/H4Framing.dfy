/** What an H4 byte stream means: the packets in it, bytes outside 1..4 between packets
    being skipped (Bluetooth Core Specification, Volume 4, Part A, section 2). */
module H4Framing {
  import opened Bytes

  const Command: Byte := 1
  const Acl: Byte := 2
  const Sco: Byte := 3
  const Event: Byte := 4

  predicate IsType(b: Byte) {
    1 <= b <= 4
  }

  /** Type byte and header together. */
  function HeaderSize(t: Byte): (n: nat)
    requires IsType(t)
    ensures 3 <= n <= 5
  {
    1 + (if t == Command then 3 else if t == Acl then 4 else if t == Sco then 3 else 2)
  }

  /** A header has been read. */
  predicate HasHeader(p: seq<Byte>) {
    p != [] && IsType(p[0]) && |p| >= HeaderSize(p[0])
  }

  /** The declared length of what follows the header: 16 bits, low byte first, for ACL data,
      the last header byte otherwise. */
  function BodyLength(p: seq<Byte>): nat
    requires HasHeader(p)
  {
    if p[0] == Acl then (p[4] as int) * 256 + p[3] as int else p[HeaderSize(p[0]) - 1] as int
  }

  function TotalLength(p: seq<Byte>): nat
    requires HasHeader(p)
  {
    HeaderSize(p[0]) + BodyLength(p)
  }

  predicate IsPacket(p: seq<Byte>) {
    HasHeader(p) && |p| == TotalLength(p)
  }

  // ------------------------------------------------------------------ packets by their fields

  /** The four kinds of packets with what is in them. */
  datatype Packet =
    | CommandPacket(opcode0: Byte, opcode1: Byte, data: seq<Byte>)
    | AclPacket(handle0: Byte, handle1: Byte, data: seq<Byte>)
    | ScoPacket(handle0: Byte, handle1: Byte, data: seq<Byte>)
    | EventPacket(code: Byte, data: seq<Byte>)

  /** The data's length fits its field. */
  predicate LengthFits(x: Packet) {
    |x.data| < if x.AclPacket? then 0x1_0000 else 0x100
  }

  function Encode(x: Packet): seq<Byte>
    requires LengthFits(x)
  {
    match x
    case CommandPacket(o0, o1, d) => [1, o0, o1, |d|] + d
    case AclPacket(h0, h1, d) => [2, h0, h1, |d| % 256, |d| / 256] + d
    case ScoPacket(h0, h1, d) => [3, h0, h1, |d|] + d
    case EventPacket(c, d) => [4, c, |d|] + d
  }

  /** Type byte, header with the length of the data, data: that is a packet. */
  lemma PacketForms(b0: Byte, b1: Byte, d: seq<Byte>)
    ensures |d| < 0x1_0000 ==> IsPacket([2, b0, b1, |d| % 256, |d| / 256] + d)
    ensures |d| < 0x100 ==>
      IsPacket([1, b0, b1, |d|] + d) && IsPacket([3, b0, b1, |d|] + d) && IsPacket([4, b0, |d|] + d)
  {
  }

  lemma EncodeIsPacket(x: Packet)
    requires LengthFits(x)
    ensures IsPacket(Encode(x))
  {
    match x
    case CommandPacket(b0, b1, d) => PacketForms(b0, b1, d);
    case AclPacket(b0, b1, d) => PacketForms(b0, b1, d);
    case ScoPacket(b0, b1, d) => PacketForms(b0, b1, d);
    case EventPacket(c, d) => PacketForms(c, 0, d);
  }

  /** Every packet is of one of the four forms. */
  lemma PacketHasForm(p: seq<Byte>) returns (b0: Byte, b1: Byte, d: seq<Byte>)
    requires IsPacket(p)
    ensures |d| < 0x1_0000
    ensures || p == [2, b0, b1, |d| % 256, |d| / 256] + d
            || (|d| < 0x100 && (p == [1, b0, b1, |d|] + d || p == [3, b0, b1, |d|] + d || p == [4, b0, |d|] + d))
  {
    var n := HeaderSize(p[0]);
    b0, b1, d := p[1], p[2], p[n..];
    assert p == p[..n] + d;
  }

  // ------------------------------------------------------------------ packets in a stream

  /** What has been found so far: whole packets, and the beginning of the next one. */
  datatype Found = Found(packets: seq<seq<Byte>>, partial: seq<Byte>)

  function Feed(f: Found, b: Byte): Found {
    if f.partial == [] && !IsType(b) then f
    else
      var p := f.partial + [b];
      if IsPacket(p) then Found(f.packets + [p], []) else f.(partial := p)
  }

  function FeedAll(f: Found, s: seq<Byte>): Found {
    if s == [] then f else Feed(FeedAll(f, s[..|s| - 1]), s[|s| - 1])
  }

  lemma {:induction false} FeedAppend(f: Found, s: seq<Byte>, t: seq<Byte>)
    ensures FeedAll(f, s + t) == FeedAll(FeedAll(f, s), t)
  {
    if t == [] {
      assert s + t == s;
    } else {
      var t' := t[..|t| - 1];
      assert (s + t)[..|s + t| - 1] == s + t';
      FeedAppend(f, s, t');
    }
  }

  /** k is s, perhaps without some bytes. */
  ghost predicate Kept(s: seq<Byte>, k: seq<Byte>) {
    if s == [] then k == []
    else Kept(s[..|s| - 1], k) || (k != [] && k[|k| - 1] == s[|s| - 1] && Kept(s[..|s| - 1], k[..|k| - 1]))
  }

  lemma {:induction false} KeptLength(s: seq<Byte>, k: seq<Byte>)
    requires Kept(s, k)
    ensures |k| <= |s| && (|k| == |s| ==> k == s)
  {
    if s != [] {
      var front := s[..|s| - 1];
      if Kept(front, k) {
        KeptLength(front, k);
      } else {
        KeptLength(front, k[..|k| - 1]);
      }
    }
  }

  lemma {:induction false} KeptAll(s: seq<Byte>)
    ensures Kept(s, s)
  {
    if s != [] {
      KeptAll(s[..|s| - 1]);
    }
  }

  lemma {:induction false} KeptJoin(s: seq<Byte>, k: seq<Byte>, t: seq<Byte>, l: seq<Byte>)
    requires Kept(s, k) && Kept(t, l)
    ensures Kept(s + t, k + l)
  {
    if t == [] {
      assert s + t == s && k + l == k;
    } else {
      var front := t[..|t| - 1];
      assert (s + t)[..|s + t| - 1] == s + front;
      if Kept(front, l) {
        KeptJoin(s, k, front, l);
      } else {
        KeptJoin(s, k, front, l[..|l| - 1]);
        assert (k + l)[..|k + l| - 1] == k + l[..|l| - 1];
      }
    }
  }

  /** Bytes that stay within the packet begun. */
  lemma {:induction false} FeedBody(f: Found, s: seq<Byte>)
    requires HasHeader(f.partial) && |f.partial| < TotalLength(f.partial)
    requires |f.partial| + |s| <= TotalLength(f.partial)
    ensures FeedAll(f, s) == if |f.partial| + |s| < TotalLength(f.partial) then f.(partial := f.partial + s)
                             else Found(f.packets + [f.partial + s], [])
  {
    if s == [] {
      assert f.partial + s == f.partial;
    } else {
      FeedBody(f, s[..|s| - 1]);
      assert f.partial + s[..|s| - 1] + [s[|s| - 1]] == f.partial + s;
    }
  }

  /** A packet's own bytes give back the packet. */
  lemma {:induction false} FeedPrefix(f: Found, p: seq<Byte>, n: nat)
    requires f.partial == [] && IsPacket(p) && n < |p|
    ensures FeedAll(f, p[..n]) == f.(partial := p[..n])
  {
    if n == 0 {
      assert p[..0] == [];
    } else {
      FeedPrefix(f, p, n - 1);
      BeginsPacket(p, n);
      hide IsPacket, FeedAll;
      var q, b := p[..n - 1], p[n - 1];
      assert q + [b] == p[..n];
      FeedNext(f, q, b);
      FeedMore(f, q, b);
    }
  }

  lemma FeedMore(f: Found, q: seq<Byte>, b: Byte)
    requires (q == [] ==> IsType(b)) && !IsPacket(q + [b])
    ensures Feed(f.(partial := q), b) == f.(partial := q + [b])
  {
    hide IsPacket;
  }

  lemma FeedNext(f: Found, s: seq<Byte>, b: Byte)
    ensures FeedAll(f, s + [b]) == Feed(FeedAll(f, s), b)
  {
    assert (s + [b])[..|s|] == s;
  }

  /** A packet's beginning is no packet. */
  lemma BeginsPacket(p: seq<Byte>, n: nat)
    requires IsPacket(p) && n < |p|
    ensures IsType(p[0]) && !IsPacket(p[..n])
  {
  }

  lemma FeedPacket(f: Found, p: seq<Byte>)
    requires f.partial == [] && IsPacket(p)
    ensures FeedAll(f, p) == Found(f.packets + [p], [])
  {
    FeedPrefix(f, p, |p| - 1);
    assert p[..|p| - 1] + [p[|p| - 1]] == p;
  }

  predicate IsNoise(s: seq<Byte>) {
    forall i :: 0 <= i < |s| ==> !IsType(s[i])
  }

  lemma {:induction false} FeedNoise(f: Found, s: seq<Byte>)
    requires f.partial == [] && IsNoise(s)
    ensures FeedAll(f, s) == f
  {
    if s != [] {
      FeedNoise(f, s[..|s| - 1]);
    }
  }

  /** A stream: packets, each behind some noise, and noise at the end. */
  function Stream(packets: seq<seq<Byte>>, noise: seq<seq<Byte>>): seq<Byte>
    requires |noise| == |packets| + 1
  {
    var n := |packets|;
    if n == 0 then noise[0] else Stream(packets[..n - 1], noise[..n]) + packets[n - 1] + noise[n]
  }

  /** The stream's packets are exactly the packets it was made of. */
  lemma {:induction false} StreamPackets(packets: seq<seq<Byte>>, noise: seq<seq<Byte>>)
    requires |noise| == |packets| + 1
    requires forall i :: 0 <= i < |packets| ==> IsPacket(packets[i])
    requires forall i :: 0 <= i < |noise| ==> IsNoise(noise[i])
    ensures FeedAll(Found([], []), Stream(packets, noise)) == Found(packets, [])
  {
    var f, n := Found([], []), |packets|;
    if n == 0 {
      FeedNoise(f, noise[0]);
    } else {
      hide FeedAll, IsPacket, IsNoise;
      var before := Stream(packets[..n - 1], noise[..n]);
      StreamPackets(packets[..n - 1], noise[..n]);
      FeedAppend(f, before, packets[n - 1]);
      FeedPacket(Found(packets[..n - 1], []), packets[n - 1]);
      assert packets[..n - 1] + [packets[n - 1]] == packets;
      FeedAppend(f, before + packets[n - 1], noise[n]);
      FeedNoise(Found(packets, []), noise[n]);
    }
  }
}
