/** The reassembly state machine of libs/libbt/src/sitm.c over a wire that may return any
    number of bytes, up to what was asked for, from each read. */
module H4Receiver {
  import opened Buffers
  import opened Bytes
  import opened H4Framing

  const PreambleBufferSize := 5
  const SerialBufferSize := 1026

  /** The reads that will fail. */
  function Failures(caps: seq<int>): nat {
    if caps == [] then 0 else (if caps[0] < 0 then 1 else 0) + Failures(caps[1..])
  }

  /** The read end of the channel. `caps` bounds what each read returns, and a negative one makes
      it fail; when they are used up, reads return nothing. */
  class Wire {
    var pending: seq<Byte>
    var caps: seq<int>

    constructor (stream: seq<Byte>, schedule: seq<int>)
      ensures pending == stream && caps == schedule
    {
      pending := stream;
      caps := schedule;
    }

    /** The data_ready callback: reads up to len bytes to dst at off, or gives -1. ok is false
        when what comes runs out of the array. */
    method Read(dst: array<Byte>, off: nat, len: nat) returns (ok: bool, n: int)
      requires off <= dst.Length
      modifies this, dst
      ensures -1 <= n <= len && n <= |old(pending)| && (ok <==> off + n <= dst.Length)
      ensures var m := if n < 0 then 0 else n;
        && pending == old(pending)[m..]
        && (ok ==> dst[..off] == old(dst[..off]) && dst[off..off + m] == old(pending)[..m])
      ensures Failures(caps) + (if n < 0 then 1 else 0) == Failures(old(caps))
      ensures |caps| < |old(caps)| || (old(caps) == [] == caps && n == 0)
    {
      n := 0;
      if caps != [] {
        n := if caps[0] < len then caps[0] else len;
        n := if n < 0 then -1 else if |pending| < n then |pending| else n;
        caps := caps[1..];
      }
      ok := off + n <= dst.Length;
      if n > 0 {
        if ok {
          Put(dst, off, pending[..n]);
        }
        pending := pending[n..];
      }
    }
  }

  /** Every packet begun in the stream fits the receive buffer. */
  ghost predicate Fits(f: Found, s: seq<Byte>) {
    forall n :: 0 <= n <= |s| ==> PartialFits(FeedAll(f, s[..n]).partial)
  }

  ghost predicate PartialFits(p: seq<Byte>) {
    HasHeader(p) ==> TotalLength(p) <= SerialBufferSize
  }

  ghost predicate AllFit(packets: seq<seq<Byte>>) {
    forall i :: 0 <= i < |packets| ==> |packets[i]| <= SerialBufferSize
  }

  lemma FeedNone(f: Found)
    ensures FeedAll(f, []) == f
  {
  }

  lemma FeedOne(f: Found, byte: Byte)
    ensures FeedAll(f, [byte]) == Feed(f, byte)
  {
    assert FeedAll(f, []) == f;
  }

  /** The bytes of a round count, or the only one is lost. */
  lemma AllOrNone(s: seq<Byte>, kept: seq<Byte>)
    requires kept == s || (|s| == 1 && kept == [])
    ensures Kept(s, kept)
  {
    if kept == s {
      KeptAll(s);
    }
  }

  /** Packets are only ever added. */
  lemma {:induction false} FeedGrows(f: Found, s: seq<Byte>)
    ensures f.packets <= FeedAll(f, s).packets
  {
    if s != [] {
      FeedGrows(f, s[..|s| - 1]);
    }
  }

  lemma PrefixFits(p: seq<Byte>, n: nat)
    requires IsPacket(p) && |p| <= SerialBufferSize && n < |p|
    ensures PartialFits(p[..n])
  {
  }

  /** A stream of packets that fit is one in which everything begun fits. */
  lemma {:induction false} StreamFits(packets: seq<seq<Byte>>, noise: seq<seq<Byte>>)
    requires |noise| == |packets| + 1
    requires AllFit(packets) && forall i :: 0 <= i < |packets| ==> IsPacket(packets[i])
    requires forall i :: 0 <= i < |noise| ==> IsNoise(noise[i])
    ensures Fits(Found([], []), Stream(packets, noise))
  {
    var f, n, s := Found([], []), |packets|, Stream(packets, noise);
    forall k | 0 <= k <= |s|
      ensures PartialFits(FeedAll(f, s[..k]).partial)
    {
      if n == 0 {
        FeedNoise(f, s[..k]);
      } else {
        var before, p := Stream(packets[..n - 1], noise[..n]), packets[n - 1];
        StreamFits(packets[..n - 1], noise[..n]);
        StreamPackets(packets[..n - 1], noise[..n]);
        FitsInLast(before, packets[..n - 1], p, noise[n], k);
      }
    }
  }

  lemma FitsInLast(before: seq<Byte>, packets: seq<seq<Byte>>, p: seq<Byte>, tail: seq<Byte>, k: nat)
    requires Fits(Found([], []), before) && FeedAll(Found([], []), before) == Found(packets, [])
    requires IsPacket(p) && |p| <= SerialBufferSize && IsNoise(tail) && k <= |before + p + tail|
    ensures PartialFits(FeedAll(Found([], []), (before + p + tail)[..k]).partial)
  {
    var f, s := Found([], []), before + p + tail;
    var g := Found(packets, []);
    if k <= |before| {
      assert s[..k] == before[..k];
    } else if k - |before| < |p| {
      var m := k - |before|;
      assert s[..k] == before + p[..m];
      FeedAppend(f, before, p[..m]);
      FeedPrefix(g, p, m);
      PrefixFits(p, m);
    } else {
      var m := k - |before| - |p|;
      assert s[..k] == before + p + tail[..m];
      FeedAppend(f, before, p);
      FeedAppend(f, before + p, tail[..m]);
      FeedPacket(g, p);
      FeedNoise(FeedAll(g, p), tail[..m]);
    }
  }

  /** c bytes of a stream have been consumed: what those of them that count mean after `start`
      has been seen, and the rest is pending. */
  ghost predicate Progress(start: Found, stream: seq<Byte>, c: nat, kept: seq<Byte>, seen: Found, pending: seq<Byte>) {
    c <= |stream| && pending == stream[c..] && Kept(stream[..c], kept) && seen == FeedAll(start, kept)
  }

  lemma ProgressBegins(start: Found, stream: seq<Byte>)
    ensures Progress(start, stream, 0, [], start, stream)
  {
    assert stream[..0] == [] && stream[0..] == stream;
  }

  /** The bytes that count begin a packet that is longer than the buffer. */
  ghost predicate TooLong(start: Found, stream: seq<Byte>, c: nat, kept: seq<Byte>) {
    c <= |stream| && Kept(stream[..c], kept) && !PartialFits(FeedAll(start, kept).partial)
  }

  /** When all count, not everything begun in the stream fits. */
  lemma TooLongToFit(start: Found, stream: seq<Byte>, c: nat, kept: seq<Byte>)
    requires TooLong(start, stream, c, kept) && |kept| == c
    ensures !Fits(start, stream)
  {
    KeptLength(stream[..c], kept);
  }

  lemma TooLongNow(start: Found, stream: seq<Byte>, c: nat, kept: seq<Byte>, seen: Found, pending: seq<Byte>)
    requires Progress(start, stream, c, kept, seen, pending) && !PartialFits(seen.partial)
    ensures TooLong(start, stream, c, kept)
  {
  }

  /** Progress after progress. */
  lemma ProgressJoin(start: Found, stream: seq<Byte>, c: nat, kept: seq<Byte>, seen: Found, pending: seq<Byte>,
                     m: nat, more: seq<Byte>, seen': Found, pending': seq<Byte>)
    requires Progress(start, stream, c, kept, seen, pending) && Progress(seen, pending, m, more, seen', pending')
    ensures Progress(start, stream, c + m, kept + more, seen', pending')
  {
    hide FeedAll, Kept;
    TakeMore(stream, c, m);
    FeedAppend(start, kept, more);
    KeptJoin(stream[..c], kept, pending[..m], more);
  }

  lemma TooLongJoin(start: Found, stream: seq<Byte>, c: nat, kept: seq<Byte>, seen: Found, pending: seq<Byte>,
                    m: nat, more: seq<Byte>)
    requires Progress(start, stream, c, kept, seen, pending) && TooLong(seen, pending, m, more)
    ensures TooLong(start, stream, c + m, kept + more)
  {
    hide FeedAll, Kept, PartialFits;
    TakeMore(stream, c, m);
    FeedAppend(start, kept, more);
    KeptJoin(stream[..c], kept, pending[..m], more);
  }

  lemma FirstAndMore(s: seq<Byte>, byte: Byte, m: nat)
    requires m + 1 <= |s| && s[0] == byte
    ensures [byte] + s[1..][..m] == s[..m + 1] && s[1..][m..] == s[m + 1..]
  {
  }

  datatype ReceiveState = BrandNew | Preamble | Body | Ignore | Finished

  /** What the fields are for the bytes seen, with `stored` the first `index` bytes of the
      array in use: the state is one of three between bytes, and FINISHED only on the way
      out of the switch; `remaining` counts to the end of the header or of the packet. */
  ghost predicate Tracks(state: ReceiveState, remaining: nat, t: Byte, stored: seq<Byte>,
                         delivered: seq<seq<Byte>>, seen: Found)
  {
    match state
    case BrandNew =>
      seen == Found(delivered, [])
    case Preamble =>
      && seen == Found(delivered, stored)
      && stored != [] && IsType(t) && t == stored[0]
      && remaining > 0 && |stored| + remaining == HeaderSize(t)
    case Body =>
      && seen == Found(delivered, stored)
      && HasHeader(stored) && remaining > 0 && |stored| + remaining == TotalLength(stored)
    case Finished =>
      seen == Found(delivered + [stored], [])
    case Ignore => false
  }

  lemma TracksFirst(r: nat, t: Byte, stored: seq<Byte>, d: seq<seq<Byte>>, seen: Found, byte: Byte)
    requires Tracks(BrandNew, r, t, stored, d, seen)
    ensures !IsType(byte) ==> Tracks(BrandNew, r, t, stored, d, Feed(seen, byte))
    ensures IsType(byte) ==> Tracks(Preamble, HeaderSize(byte) - 1, byte, [byte], d, Feed(seen, byte))
  {
  }

  lemma TracksHeader(r: nat, t: Byte, stored: seq<Byte>, d: seq<seq<Byte>>, seen: Found, byte: Byte)
    requires Tracks(Preamble, r, t, stored, d, seen)
    ensures r > 1 ==> Tracks(Preamble, r - 1, t, stored + [byte], d, Feed(seen, byte))
    ensures var p := stored + [byte];
            r == 1 ==>
              && HasHeader(p) && |p| == HeaderSize(t) && p[0] == t && p[|p| - 1] == byte
              && Tracks(if BodyLength(p) > 0 then Body else Finished, BodyLength(p), t, p, d, Feed(seen, byte))
  {
  }

  lemma TracksBody(r: nat, t: Byte, stored: seq<Byte>, d: seq<seq<Byte>>, seen: Found, more: seq<Byte>)
    requires Tracks(Body, r, t, stored, d, seen) && 0 < |more| <= r
    ensures Tracks(if |more| < r then Body else Finished, r - |more|, t, stored + more, d, FeedAll(seen, more))
  {
    FeedBody(seen, more);
    hide FeedAll;
  }

  class Receiver {
    var state: ReceiveState
    var bytesRemaining: nat
    var packetType: Byte
    const preamble: array<Byte>
    var index: nat
    const buffer: array<Byte>
    var delivered: seq<seq<Byte>>  // the calls of frame_complete
    ghost var Seen: Found  // what the bytes consumed so far mean

    constructor ()
      ensures Valid() && Seen == Found([], [])
      ensures fresh(preamble) && fresh(buffer)
    {
      state, bytesRemaining, packetType, index := BrandNew, 0, Event, 0;
      preamble := new Byte[PreambleBufferSize](i => 0);
      buffer := new Byte[SerialBufferSize](i => 0);
      delivered := [];
      Seen := Found([], []);
    }

    /** The bytes of the current packet, in the array the state says. */
    ghost function Stored(): (p: seq<Byte>)
      reads this, preamble, buffer
    {
      match state
      case Preamble => if index <= preamble.Length then preamble[..index] else []
      case _ => if index <= buffer.Length then buffer[..index] else []
    }

    ghost predicate Shape()
      reads this
    {
      && preamble.Length == PreambleBufferSize && buffer.Length == SerialBufferSize && preamble != buffer
      && index <= match state case Preamble => PreambleBufferSize case _ => SerialBufferSize
    }

    ghost predicate AfterByte()
      reads this, preamble, buffer
    {
      Shape() && Tracks(state, bytesRemaining, packetType, Stored(), delivered, Seen)
    }

    /** Between calls the machine is in BRAND_NEW, PREAMBLE or BODY. */
    ghost predicate Valid()
      reads this, preamble, buffer
    {
      AfterByte() && state in {BrandNew, Preamble, Body}
    }

    /** The BRAND_NEW case up to the point where it falls through to PREAMBLE. */
    method FirstByte(byte: Byte)
      requires Shape() && IsType(byte)
      modifies this`state, this`bytesRemaining, this`packetType, this`index, preamble
      ensures state == Preamble && bytesRemaining == HeaderSize(byte) && packetType == byte && index == 0
      ensures Shape()
    {
      packetType := byte;
      bytesRemaining := HeaderSize(packetType);
      for i := 0 to PreambleBufferSize
        modifies preamble
      {
        preamble[i] := 0;
      }
      index := 0;
      state := Preamble;
    }

    /** The PREAMBLE case. */
    method PreambleByte(byte: Byte)
      requires Shape() && state == Preamble && bytesRemaining > 0 && index + bytesRemaining <= PreambleBufferSize
      requires var p := preamble[..index] + [byte];
        bytesRemaining == 1 ==> HasHeader(p) && packetType == p[0] && index + 1 == HeaderSize(packetType)
      modifies this`state, this`bytesRemaining, this`index, preamble, buffer
      ensures Shape() && Stored() == old(preamble[..index]) + [byte]
      ensures old(bytesRemaining) > 1 ==> state == Preamble && bytesRemaining == old(bytesRemaining) - 1
      ensures old(bytesRemaining) == 1 ==>
                && bytesRemaining == BodyLength(Stored())
                && state == if bytesRemaining > 0 then Body else Finished
    {
      ghost var p := preamble[..index] + [byte];
      preamble[index] := byte;
      index := index + 1;
      bytesRemaining := bytesRemaining - 1;
      assert preamble[..index] == p;
      if bytesRemaining == 0 {
        bytesRemaining := if packetType == Acl then (preamble[4] as int) * 256 + preamble[3] as int else byte as int;
        for i := 0 to index
          modifies buffer
          invariant buffer[..i] == preamble[..i]
        {
          buffer[i] := preamble[i];
        }
        state := if bytesRemaining > 0 then Body else Finished;
      }
    }

    /** The BODY case: this byte, then as many of the missing ones as one read gives. A read that
        fails counts minus one, which takes the byte back. ok is false when the bytes run out of
        the buffer. */
    method BodyBytes(wire: Wire, byte: Byte) returns (ok: bool, n: int)
      requires Shape() && state == Body && bytesRemaining > 0
      modifies this`state, this`bytesRemaining, this`index, buffer, wire
      ensures -1 <= n <= |old(wire.pending)| && n < old(bytesRemaining) && |wire.caps| <= |old(wire.caps)|
      ensures ok <==> old(index) + 1 + n <= SerialBufferSize && old(index) < SerialBufferSize
      ensures ok ==> wire.pending == old(wire.pending)[if n < 0 then 0 else n..]
      ensures ok ==>
        Shape() && Stored() == old(buffer[..index]) + if n < 0 then [] else [byte] + old(wire.pending)[..n]
      ensures ok ==>
        bytesRemaining == old(bytesRemaining) - (1 + n) && state == if bytesRemaining == 0 then Finished else Body
      ensures Failures(wire.caps) + (if n < 0 then 1 else 0) == Failures(old(wire.caps))
    {
      if index == buffer.Length {
        return false, 0;
      }
      ghost var p := buffer[..index];
      buffer[index] := byte;
      index := index + 1;
      bytesRemaining := bytesRemaining - 1;
      ok, n := wire.Read(buffer, index, bytesRemaining);
      if !ok {
        return;
      }
      if n < 0 {
        assert buffer[..index][..index - 1] == p;
      } else {
        assert buffer[..index + n] == p + ([byte] + old(wire.pending)[..n]);
      }
      index := index + n;
      bytesRemaining := bytesRemaining - n;
      state := if bytesRemaining == 0 then Finished else state;
    }

    /** The BRAND_NEW and PREAMBLE cases. */
    method SwitchHeader(byte: Byte)
      requires Valid() && state != Body
      modifies this`state, this`bytesRemaining, this`packetType, this`index, this`Seen, preamble, buffer
      ensures AfterByte() && Seen == Feed(old(Seen), byte)
    {
      ghost var r, t, stored, f := bytesRemaining, packetType, Stored(), Seen;
      if state == BrandNew {
        TracksFirst(r, t, stored, delivered, f, byte);
        Seen := Feed(f, byte);
        if byte > Event || byte < Command {
          return;
        }
        FirstByte(byte);
        assert preamble[..index] == [] && [] + [byte] == [byte];
        PreambleByte(byte);
      } else {
        TracksHeader(r, t, stored, delivered, f, byte);
        PreambleByte(byte);
        Seen := Feed(f, byte);
      }
    }

    /** The BODY case; kept are the bytes that count: none when the read behind the byte fails. */
    method SwitchBody(wire: Wire, byte: Byte) returns (ok: bool, ghost n: nat, ghost kept: seq<Byte>)
      requires Valid() && state == Body
      modifies this`state, this`bytesRemaining, this`index, this`Seen, buffer, wire
      ensures !ok ==> !PartialFits(old(Seen).partial)
      ensures n <= |old(wire.pending)| && |wire.caps| <= |old(wire.caps)|
      ensures ok ==>
        wire.pending == old(wire.pending)[n..] && (kept == [byte] + old(wire.pending)[..n] || (n == 0 && kept == []))
      ensures ok ==> AfterByte() && Seen == FeedAll(old(Seen), kept)
      ensures ok ==> n + 1 - |kept| + Failures(wire.caps) <= Failures(old(wire.caps))
      ensures Failures(wire.caps) <= Failures(old(wire.caps))
    {
      ghost var r, t, stored, f, pending := bytesRemaining, packetType, Stored(), Seen, wire.pending;
      var read;
      ok, read := BodyBytes(wire, byte);
      n := if read < 0 then 0 else read;
      kept := if read < 0 then [] else [byte] + pending[..n];
      if ok {
        if read < 0 {
          assert stored + [] == stored;
        } else {
          TracksBody(r, t, stored, delivered, f, kept);
        }
        Seen := FeedAll(f, kept);
      }
    }

    /** The switch on one byte. */
    method Switch(wire: Wire, byte: Byte) returns (ok: bool, ghost n: nat, ghost kept: seq<Byte>)
      requires Valid()
      modifies this`state, this`bytesRemaining, this`packetType, this`index, this`Seen, preamble, buffer, wire
      ensures !ok ==> !PartialFits(old(Seen).partial)
      ensures n <= |old(wire.pending)| && |wire.caps| <= |old(wire.caps)|
      ensures ok ==>
        wire.pending == old(wire.pending)[n..] && (kept == [byte] + old(wire.pending)[..n] || (n == 0 && kept == []))
      ensures ok ==> AfterByte() && Seen == FeedAll(old(Seen), kept)
      ensures ok ==> n + 1 - |kept| + Failures(wire.caps) <= Failures(old(wire.caps))
      ensures Failures(wire.caps) <= Failures(old(wire.caps))
    {
      if state == Body {
        ok, n, kept := SwitchBody(wire, byte);
      } else {
        ok, n, kept := true, 0, [byte];
        hide Valid, AfterByte, Tracks;
        FeedOne(Seen, byte);
        assert [byte] + wire.pending[..0] == [byte];
        SwitchHeader(byte);
      }
    }

    /** parse_frame: reads bytes until a packet is complete or the wire has no more. ok is false
        when a packet runs out of the buffer. Every read that fails loses one byte at most. */
    method ParseFrame(wire: Wire) returns (ok: bool, ghost c: nat, ghost kept: seq<Byte>)
      requires Valid()
      modifies this, preamble, buffer, wire
      ensures !ok ==> TooLong(old(Seen), old(wire.pending), c, kept)
      ensures ok ==> Valid() && Progress(old(Seen), old(wire.pending), c, kept, Seen, wire.pending)
      ensures c - |kept| + Failures(wire.caps) <= Failures(old(wire.caps))
      ensures |wire.caps| < |old(wire.caps)| || old(wire.caps) == [] == wire.caps
      ensures ok ==> delivered == Seen.packets && |delivered| <= |old(delivered)| + 1
      ensures ok && AllFit(old(delivered)) ==> AllFit(delivered)
    {
      ghost var stream, start, frames := wire.pending, Seen, delivered;
      ghost var plan, failures := |wire.caps|, Failures(wire.caps);
      c, kept := 0, [];
      ProgressBegins(start, stream);
      AfterLoop();
      hide Progress, TooLong, PartialFits, AllFit, Tracks, Valid, AfterByte, Failures;
      while true
        invariant Valid() && Progress(start, stream, c, kept, Seen, wire.pending) && delivered == frames
        invariant |wire.caps| < plan || (|wire.caps| == plan && c == 0)
        invariant c - |kept| + Failures(wire.caps) <= failures
        decreases |wire.caps|
      {
        var got;
        ok, got, c, kept := Advance(wire, start, stream, c, kept, failures);
        if !ok {
          return;
        }
        if !got {
          break;
        }
        if state == Finished {
          Deliver();
          break;
        }
        StillValid();
      }
      AfterLoop();
    }

    /** A round behind those before it. */
    method Advance(wire: Wire, ghost start: Found, ghost stream: seq<Byte>, ghost c0: nat, ghost kept0: seq<Byte>,
                   ghost failures: nat)
      returns (ok: bool, got: bool, ghost c: nat, ghost kept: seq<Byte>)
      requires Valid() && Progress(start, stream, c0, kept0, Seen, wire.pending)
      requires c0 - |kept0| + Failures(wire.caps) <= failures
      modifies this`state, this`bytesRemaining, this`packetType, this`index, this`Seen, preamble, buffer, wire
      ensures !ok ==> TooLong(start, stream, c, kept)
      ensures ok ==> Progress(start, stream, c, kept, Seen, wire.pending)
      ensures c - |kept| + Failures(wire.caps) <= failures
      ensures !got ==> c == c0
      ensures ok ==> if got then AfterByte() else Valid()
      ensures |wire.caps| < |old(wire.caps)| || (old(wire.caps) == [] == wire.caps && ok && !got)
    {
      hide Progress, TooLong, PartialFits, Tracks, Valid, AfterByte, Failures;
      ghost var seen, pending := Seen, wire.pending;
      ghost var m, more;
      ok, got, m, more := Step(wire);
      c, kept := c0, kept0;
      if ok {
        ProgressJoin(start, stream, c, kept, seen, pending, m, more, Seen, wire.pending);
        c, kept := c + m, kept + more;
      } else {
        TooLongNow(start, stream, c, kept, seen, pending);
      }
    }

    /** One round of the loop: a byte and the switch on it. */
    method Step(wire: Wire) returns (ok: bool, got: bool, ghost m: nat, ghost kept: seq<Byte>)
      requires Valid()
      modifies this`state, this`bytesRemaining, this`packetType, this`index, this`Seen, preamble, buffer, wire
      ensures !ok ==> !PartialFits(old(Seen).partial) && Failures(wire.caps) <= Failures(old(wire.caps))
      ensures ok ==> Progress(old(Seen), old(wire.pending), m, kept, Seen, wire.pending)
      ensures ok ==> m - |kept| + Failures(wire.caps) <= Failures(old(wire.caps))
      ensures !got ==> m == 0
      ensures ok ==> if got then AfterByte() else Valid()
      ensures |wire.caps| < |old(wire.caps)| || (old(wire.caps) == [] == wire.caps && ok && !got)
    {
      hide FeedAll, Kept, PartialFits, Tracks, Valid, AfterByte;
      ghost var seen, pending := Seen, wire.pending;
      var n, byte := ReadByte(wire);
      got := n == 1;
      ok, m, kept := true, 0, [];
      if got {
        ok, m, kept := Switch(wire, byte);
        if !ok {
          return;
        }
        FirstAndMore(pending, byte, m);
        m := m + 1;
        AllOrNone(pending[..m], kept);
      } else {
        ProgressBegins(seen, pending);
      }
    }

    /** data_ready(&byte, 1). */
    method ReadByte(wire: Wire) returns (n: int, byte: Byte)
      modifies wire
      ensures n <= 1 && n <= |old(wire.pending)| && wire.pending == old(wire.pending)[if n < 0 then 0 else n..]
      ensures n == 1 ==> old(wire.pending) == [byte] + wire.pending
      ensures Failures(wire.caps) <= Failures(old(wire.caps))
      ensures |wire.caps| < |old(wire.caps)| || (old(wire.caps) == [] == wire.caps && n == 0)
    {
      var byteRead := new Byte[1](i => 0);
      var ok;
      ok, n := wire.Read(byteRead, 0, 1);
      byte := byteRead[0];
    }

    lemma StillValid()
      requires AfterByte() && state != Finished
      ensures Valid()
    {
    }

    lemma AfterLoop()
      requires Valid()
      ensures delivered == Seen.packets
    {
    }

    lemma Idle()
      requires Valid()
      ensures Seen.partial == [] ==> state == BrandNew
    {
    }

    /** Lines 422-428. */
    method Deliver()
      requires AfterByte() && state == Finished
      modifies this`state, this`delivered
      ensures Valid() && delivered == old(delivered) + [old(buffer[..index])]
      ensures AllFit(old(delivered)) ==> AllFit(delivered)
    {
      delivered := delivered + [buffer[..index]];
      state := BrandNew;
    }
  }

  /** The thread loop: parse_frame again and again until the wire is used up, or a packet runs
      out of the buffer. */
  method ReceiveAll(receiver: Receiver, wire: Wire) returns (ok: bool, ghost c: nat, ghost kept: seq<Byte>)
    requires receiver.Valid() && AllFit(receiver.delivered)
    modifies receiver, receiver.preamble, receiver.buffer, wire
    ensures !ok ==> TooLong(old(receiver.Seen), old(wire.pending), c, kept)
    ensures ok ==> Progress(old(receiver.Seen), old(wire.pending), c, kept, receiver.Seen, wire.pending)
    ensures ok ==> receiver.Valid() && receiver.delivered == receiver.Seen.packets && AllFit(receiver.delivered)
    ensures c <= |kept| + Failures(old(wire.caps))
  {
    hide *;
    ghost var stream, start := wire.pending, receiver.Seen;
    ok, c, kept := true, 0, [];
    receiver.AfterLoop();
    ProgressBegins(start, stream);
    while wire.caps != []
      invariant receiver.Valid() && Progress(start, stream, c, kept, receiver.Seen, wire.pending)
      invariant receiver.delivered == receiver.Seen.packets && AllFit(receiver.delivered)
      invariant c - |kept| + Failures(wire.caps) <= Failures(old(wire.caps))
      invariant ok
      decreases |wire.caps|
    {
      ghost var seen, pending := receiver.Seen, wire.pending;
      ghost var m, more;
      ok, m, more := receiver.ParseFrame(wire);
      if !ok {
        TooLongJoin(start, stream, c, kept, seen, pending, m, more);
      } else {
        ProgressJoin(start, stream, c, kept, seen, pending, m, more, receiver.Seen, wire.pending);
      }
      c, kept := c + m, kept + more;
      if !ok {
        return;
      }
    }
  }

  /** Packets with any noise between them, sent over a wire with any read sizes: the frames
      handed on are a prefix of the packets, and all of them once the stream is used up. The
      buffer holds exactly the streams whose packets all fit. Reads that fail lose bytes, one
      each at most; the frames are then those of the bytes that are left. */
  method Receive(packets: seq<seq<Byte>>, noise: seq<seq<Byte>>, schedule: seq<int>)
    returns (ok: bool, frames: seq<seq<Byte>>, rest: seq<Byte>, state: ReceiveState, ghost kept: seq<Byte>)
    requires |noise| == |packets| + 1
    requires forall i :: 0 <= i < |packets| ==> IsPacket(packets[i])
    requires forall i :: 0 <= i < |noise| ==> IsNoise(noise[i])
    ensures ok ==>
      var stream := Stream(packets, noise);
      && |rest| <= |stream| && Kept(stream[..|stream| - |rest|], kept) && frames == FeedAll(Found([], []), kept).packets
      && |stream| - |rest| <= |kept| + Failures(schedule)
    ensures Failures(schedule) == 0 ==>
      && (AllFit(packets) ==> ok)
      && (ok ==> frames <= packets)
      && (ok && rest == [] ==> frames == packets && state == BrandNew && AllFit(packets))
  {
    hide FeedAll, Fits, Stream, IsPacket, IsNoise, Receiver.Valid, TooLong, Failures, Kept, PartialFits, Tracks;
    var stream := Stream(packets, noise);
    var receiver := new Receiver();
    var wire := new Wire(stream, schedule);
    if AllFit(packets) {
      StreamFits(packets, noise);
    }
    receiver.AfterLoop();
    assert AllFit(receiver.delivered);
    hide AllFit;
    ghost var c;
    ok, c, kept := ReceiveAll(receiver, wire);
    frames, rest, state := receiver.delivered, wire.pending, receiver.state;
    if ok {
      receiver.Idle();
    }
    if Failures(schedule) == 0 {
      if ok {
        KeptLength(stream[..c], kept);
        ReceivedSoFar(packets, noise, c);
      } else {
        NothingLost(stream, c, kept);
      }
    }
  }

  /** Packets given by their fields, over a wire that does not fail: what is handed on is a
      prefix of their bytes, and all of them once the stream is used up, as long as none is
      longer than 1026 bytes. */
  method ReceivePackets(packets: seq<Packet>, noise: seq<seq<Byte>>, schedule: seq<int>)
    returns (ok: bool, frames: seq<seq<Byte>>, rest: seq<Byte>)
    requires |noise| == |packets| + 1 && forall i :: 0 <= i < |packets| ==> LengthFits(packets[i])
    requires forall i, j :: 0 <= i < |noise| && 0 <= j < |noise[i]| ==> noise[i][j] !in {1, 2, 3, 4}
    requires forall i :: 0 <= i < |schedule| ==> schedule[i] >= 0
    ensures (forall i :: 0 <= i < |packets| ==> |Encode(packets[i])| <= 1026) ==>
      && ok && |frames| <= |packets| && (forall i :: 0 <= i < |frames| ==> frames[i] == Encode(packets[i]))
      && (rest == [] ==> |frames| == |packets|)
    ensures ok && rest == [] ==> forall i :: 0 <= i < |packets| ==> |Encode(packets[i])| <= 1026
  {
    hide *;
    var bytes := EncodeAll(packets);
    EncodedAre(packets);
    NoiseOnly(noise);
    NoFailures(schedule);
    var state;
    ghost var kept;
    ok, frames, rest, state, kept := Receive(bytes, noise, schedule);
    FramesAre(packets, frames);
  }

  function EncodeAll(packets: seq<Packet>): (b: seq<seq<Byte>>)
    requires forall i :: 0 <= i < |packets| ==> LengthFits(packets[i])
    ensures |b| == |packets| && forall i :: 0 <= i < |b| ==> b[i] == Encode(packets[i])
  {
    seq(|packets|, i requires 0 <= i < |packets| => Encode(packets[i]))
  }

  lemma EncodedAre(packets: seq<Packet>)
    requires forall i :: 0 <= i < |packets| ==> LengthFits(packets[i])
    ensures forall i :: 0 <= i < |packets| ==> IsPacket(EncodeAll(packets)[i])
    ensures AllFit(EncodeAll(packets)) <==> forall i :: 0 <= i < |packets| ==> |Encode(packets[i])| <= 1026
  {
    hide Encode, IsPacket, LengthFits;
    var b := EncodeAll(packets);
    hide EncodeAll;
    forall i | 0 <= i < |packets|
      ensures IsPacket(b[i])
    {
      EncodeIsPacket(packets[i]);
    }
    assert AllFit(b) ==> forall i :: 0 <= i < |packets| ==> |b[i]| <= SerialBufferSize;
  }

  lemma FramesAre(packets: seq<Packet>, frames: seq<seq<Byte>>)
    requires forall i :: 0 <= i < |packets| ==> LengthFits(packets[i])
    ensures frames <= EncodeAll(packets) ==>
      |frames| <= |packets| && forall i :: 0 <= i < |frames| ==> frames[i] == Encode(packets[i])
  {
    hide Encode, LengthFits;
  }

  lemma NoiseOnly(noise: seq<seq<Byte>>)
    requires forall i, j :: 0 <= i < |noise| && 0 <= j < |noise[i]| ==> noise[i][j] !in {1, 2, 3, 4}
    ensures forall i :: 0 <= i < |noise| ==> IsNoise(noise[i])
  {
  }

  lemma {:induction false} NoFailures(schedule: seq<int>)
    requires forall i :: 0 <= i < |schedule| ==> schedule[i] >= 0
    ensures Failures(schedule) == 0
  {
    if schedule != [] {
      NoFailures(schedule[1..]);
    }
  }

  lemma NothingLost(stream: seq<Byte>, c: nat, kept: seq<Byte>)
    requires TooLong(Found([], []), stream, c, kept) && c <= |kept|
    ensures !Fits(Found([], []), stream)
  {
    KeptLength(stream[..c], kept);
    TooLongToFit(Found([], []), stream, c, kept);
  }

  lemma ReceivedSoFar(packets: seq<seq<Byte>>, noise: seq<seq<Byte>>, c: nat)
    requires |noise| == |packets| + 1 && c <= |Stream(packets, noise)|
    requires forall i :: 0 <= i < |packets| ==> IsPacket(packets[i])
    requires forall i :: 0 <= i < |noise| ==> IsNoise(noise[i])
    ensures FeedAll(Found([], []), Stream(packets, noise)[..c]).packets <= packets
    ensures Stream(packets, noise)[c..] == [] ==>
      FeedAll(Found([], []), Stream(packets, noise)[..c]) == Found(packets, [])
  {
    hide FeedAll, Stream, IsPacket, IsNoise;
    var stream, f := Stream(packets, noise), Found([], []);
    StreamPackets(packets, noise);
    TakeAll(stream, c);
    FeedAppend(f, stream[..c], stream[c..]);
    FeedGrows(FeedAll(f, stream[..c]), stream[c..]);
  }
}
