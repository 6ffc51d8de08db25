/** readline of libs/aGPS/lib/atc.c: a line splitter over a fixed buffer that is refilled by
    reads of any size. */
module AtLineReader {
  import opened AtLines
  import opened Buffers
  import opened Options

  /** What one read() does: fails with EINTR, fails otherwise, or returns at most `limit`
      characters (end of file when there is nothing to return). */
  datatype ReadResult = Interrupted | Failed | Data(limit: nat)

  datatype Errno = Ok | Eintr | OtherError

  /** How many reads return characters. */
  function DataReads(plan: seq<ReadResult>): nat {
    if plan == [] then 0 else (if plan[0].Data? then 1 else 0) + DataReads(plan[1..])
  }

  /** No read fails but for interruptions, and there is one for every character to come. */
  ghost predicate Delivers(plan: seq<ReadResult>, pending: string) {
    && (forall i :: 0 <= i < |plan| ==> plan[i] == Interrupted || (plan[i].Data? && plan[i].limit > 0))
    && |pending| <= DataReads(plan)
  }

  /** Some reads have been made. */
  ghost predicate ReadOn(plan: seq<ReadResult>, pending: string, plan': seq<ReadResult>, pending': string) {
    && |plan'| <= |plan| && plan' == plan[|plan| - |plan'|..]
    && (Delivers(plan, pending) ==> Delivers(plan', pending'))
  }

  /** The last of them failed or returned nothing: it was made to, or there is nothing more to
      return. */
  ghost predicate GaveNothing(plan: seq<ReadResult>, plan': seq<ReadResult>, pending': string) {
    plan' == [] || pending' == ""
    || (|plan'| < |plan| && (plan[|plan| - |plan'| - 1] == Failed || plan[|plan| - |plan'| - 1] == Data(0)))
  }

  /** As many reads as characters are enough, of any sizes but zero. */
  lemma {:induction false} EnoughReads(plan: seq<ReadResult>, pending: string)
    requires (forall i :: 0 <= i < |plan| ==> plan[i].Data? && plan[i].limit > 0) && |pending| <= |plan|
    ensures Delivers(plan, pending)
  {
    if plan != [] {
      EnoughReads(plan[1..], if pending == "" then "" else pending[1..]);
    }
  }

  lemma NoneRead(plan: seq<ReadResult>, pending: string)
    ensures ReadOn(plan, pending, plan, pending)
  {
  }

  lemma ReadOnJoin(plan: seq<ReadResult>, pending: string, plan': seq<ReadResult>, pending': string,
                   plan'': seq<ReadResult>, pending'': string)
    requires ReadOn(plan, pending, plan', pending') && ReadOn(plan', pending', plan'', pending'')
    ensures ReadOn(plan, pending, plan'', pending'')
    ensures GaveNothing(plan', plan'', pending'') ==> GaveNothing(plan, plan'', pending'')
  {
    hide Delivers;
  }

  /** When nothing fails, the only reason is that all characters have been read. */
  lemma AllRead(plan: seq<ReadResult>, pending: string, plan': seq<ReadResult>, pending': string)
    requires Delivers(plan, pending) && ReadOn(plan, pending, plan', pending') && GaveNothing(plan, plan', pending')
    ensures pending' == ""
  {
  }

  lemma NoPlan(pending: string)
    ensures GaveNothing([], [], pending)
  {
  }

  lemma OneRead(plan: seq<ReadResult>, pending: string, len: nat, n: nat)
    requires plan != [] && len > 0 && n <= |pending|
    requires n == match plan[0]
                  case Data(limit) =>
                    var m := if limit < len then limit else len;
                    if |pending| < m then |pending| else m
                  case _ => 0
    ensures ReadOn(plan, pending, plan[1..], pending[n..])
    ensures n == 0 && plan[0] != Interrupted ==> GaveNothing(plan, plan[1..], pending[n..])
  {
  }

  /** The file descriptor: the characters still to come and how the reads behave. */
  class Port {
    var pending: string
    var plan: seq<ReadResult>

    constructor (stream: string, results: seq<ReadResult>)
      ensures pending == stream && plan == results
    {
      pending := stream;
      plan := results;
    }

    method Read(dst: array<char>, off: nat, len: nat) returns (count: int, errno: Errno)
      requires off + len <= dst.Length
      modifies this, dst
      ensures -1 <= count <= len && count <= |old(pending)|
      ensures errno == Eintr ==> count == -1
      ensures old(plan) == [] ==> plan == [] && count == 0
      ensures old(plan) != [] ==> plan == old(plan)[1..]
      ensures len > 0 ==> ReadOn(old(plan), old(pending), plan, pending)
      ensures len > 0 && count <= 0 && errno != Eintr ==> GaveNothing(old(plan), plan, pending)
      ensures var n := if count < 0 then 0 else count;
              && pending == old(pending)[n..]
              && dst[..off] == old(dst[..off])
              && dst[off..off + n] == old(pending)[..n]
              && dst[off + n..] == old(dst[off + n..])
      ensures count <= 0 && len > 0 ==> dst[off] == old(dst[off])
    {
      count, errno := 0, Ok;
      hide ReadOn, GaveNothing;
      NoneRead(plan, pending);
      if plan != [] {
        match plan[0] {
          case Interrupted => count, errno := -1, Eintr;
          case Failed => count, errno := -1, OtherError;
          case Data(limit) =>
            count := if limit < len then limit else len;
            count := if |pending| < count then |pending| else count;
        }
        if len > 0 {
          OneRead(plan, pending, len, if count < 0 then 0 else count);
        }
        plan := plan[1..];
      } else {
        NoPlan(pending);
      }
      if count > 0 {
        Put(dst, off, pending[..count]);
        pending := pending[count..];
      }
    }
  }

  // ------------------------------------------------------------------ streams the reader handles

  ghost predicate Fits(f: Split, s: string) {
    NoNul(s) && forall n :: 0 <= n <= |s| ==> Room(FeedAll(f, s[..n]))
  }

  lemma FeedNone(f: Split)
    ensures FeedAll(f, "") == f
  {
  }

  // ------------------------------------------------------------------ the text in the buffer

  /** What the buffer text t means: `given` was found before it, `seen` with it. */
  ghost predicate Holds(given: Split, t: string, seen: Split) {
    given.partial == "" && NoNul(t) && seen == FeedAll(given, t)
  }

  lemma HoldsSkip(given: Split, t: string, seen: Split)
    requires Holds(given, t, seen) && t != "" && IsEol(t[0])
    ensures Holds(given.(gap := given.gap + 1), t[1..], seen)
  {
    FeedAppend(given, t[..1], t[1..]);
    assert t[..1] + t[1..] == t;
    FeedOne(given, t[..1]);
  }

  lemma HoldsMore(given: Split, t: string, seen: Split, more: string)
    requires Holds(given, t, seen) && NoNul(more)
    ensures Holds(given, t + more, FeedAll(seen, more))
  {
    FeedAppend(given, t, more);
  }

  lemma HoldsLine(given: Split, t: string, seen: Split, n: nat)
    requires Holds(given, t, seen) && 0 < n < |t| && NoEol(t[..n]) && IsEol(t[n])
    ensures Holds(Split(given.lines + [t[..n]], 0, ""), t[n + 1..], seen)
  {
    assert t == t[..n] + t[n..];
    FeedLine(given, t[..n], t[n..]);
  }

  /** Text without a line end is the beginning of the next line. */
  lemma HoldsPartial(given: Split, t: string, seen: Split)
    requires Holds(given, t, seen) && NoEol(t)
    ensures seen == given.(partial := t)
  {
    FeedText(given, t);
    assert "" + t == t;
  }

  lemma HoldsNothing(f: Split)
    requires f.partial == ""
    ensures Holds(f, "", f)
  {
  }

  class Channel {
    const buf: array<char>  // s_ATBuffer
    var cur: nat  // s_ATBufferCur
    ghost var End: nat  // where the text in the buffer ends
    ghost var Given: Split  // what the characters before cur meant
    ghost var Seen: Split  // what everything read so far means

    constructor ()
      ensures Valid() && Seen == Given == Start && fresh(buf)
    {
      buf := new char[MaxAtResponse + 1](i => '\0');
      cur, End := 0, 0;
      Given, Seen := Start, Start;
      new;
      assert buf[0..0] == "";
    }

    ghost predicate Shape()
      reads this, buf
    {
      buf.Length == MaxAtResponse + 1 && cur <= End <= MaxAtResponse && buf[End] == '\0'
    }

    /** The characters from cur to the terminator. */
    ghost function Text(): string
      reads this, buf
      requires Shape()
    {
      buf[cur..End]
    }

    ghost predicate Valid()
      reads this, buf
    {
      Shape() && Holds(Given, Text(), Seen)
    }

    lemma TextHead()
      requires Shape()
      ensures Text() != "" ==> Text()[0] == buf[cur]
    {
    }

    /** Lines 165-166. */
    method SkipNewlines()
      requires Valid()
      modifies this`cur, this`Given
      ensures Valid() && cur >= old(cur)
      ensures Given == old(Given).(gap := old(Given).gap + (cur - old(cur)))
      ensures Text() != "" ==> !IsEol(Text()[0])
    {
      while buf[cur] == '\r' || buf[cur] == '\n'
        invariant Valid() && cur >= old(cur)
        invariant Given == old(Given).(gap := old(Given).gap + (cur - old(cur)))
        decreases End - cur
      {
        ghost var t := Text();
        HoldsSkip(Given, t, Seen);
        cur := cur + 1;
        Given := Given.(gap := Given.gap + 1);
        hide Holds;
        assert Text() == t[1..];
      }
    }

    /** findNextEOL: the first line end at or after cur, or the end of a text that is exactly
        the SMS prompt. */
    method FindNextEol() returns (eol: Option<nat>, prompt: bool)
      requires Shape() && NoNul(Text())
      ensures prompt <==> Text() == "> "
      ensures prompt ==> eol == Some(End)
      ensures !prompt && eol == None ==> NoEol(Text())
      ensures !prompt && eol.Some? ==>
        cur <= eol.value < End && IsEol(buf[eol.value]) && NoEol(buf[cur..eol.value])
    {
      ghost var t := Text();
      assert forall i :: cur <= i < End ==> buf[i] == t[i - cur];
      if buf[cur] == '>' && buf[cur + 1] == ' ' && buf[cur + 2] == '\0' {
        return Some(cur + 2), true;
      }
      var p := cur;
      while buf[p] != '\0' && buf[p] != '\r' && buf[p] != '\n'
        invariant cur <= p <= End && NoEol(buf[cur..p])
        decreases End - p
      {
        p := p + 1;
      }
      return if buf[p] == '\0' then None else Some(p), false;
    }

    /** Lines 158-160. */
    method Restart()
      requires Valid() && buf[cur] == '\0'
      modifies this`cur, this`End, buf
      ensures Valid() && cur == End == 0
    {
      TextHead();
      assert Text() == "";
      cur := 0;
      buf[cur] := '\0';
      End := 0;
      assert Text() == "";
    }

    /** Lines 174-178: strlen and memmove. */
    method MoveUp() returns (pRead: nat)
      requires Valid()
      modifies this`cur, this`End, buf
      ensures Valid() && cur == 0 && pRead == End && Text() == old(Text())
    {
      ghost var t := Text();
      assert forall i :: cur <= i < End ==> buf[i] == t[i - cur];
      var len := 0;
      while buf[cur + len] != '\0'
        invariant cur + len <= End
        decreases End - cur - len
      {
        len := len + 1;
      }
      for i := 0 to len + 1
        modifies buf
        invariant forall k :: 0 <= k < i ==> buf[k] == old(buf[cur + k])
        invariant forall k :: i <= k < buf.Length ==> buf[k] == old(buf[k])
      {
        buf[i] := buf[cur + i];
      }
      pRead := len;
      cur := 0;
      End := len;
      hide Holds;
      assert Text() == t;
    }

    /** Lines 224-226. Behind a line the cursor stays in the text; behind a prompt it leaves it,
        and lost says that what the buffer holds there will be taken for text. */
    method Take(eol: nat, prompt: bool) returns (line: string, lost: bool)
      requires Valid() && (if prompt then IsPrompt(eol) else IsLine(eol))
      modifies this`cur, this`End, this`Given, this`Seen, buf
      ensures !lost ==> Valid()
      ensures Given.lines == old(Given).lines + [line]
      ensures !prompt ==> !lost && Seen == old(Seen)
      ensures prompt ==> line == "> " && Allowed(old(Seen), Prompt) && Seen == Given == FeedEvent(old(Seen), Prompt)
    {
      ghost var t := Text();
      line := buf[cur..eol];
      if prompt {
        HoldsPartial(Given, t, Seen);
        Given, Seen := Split(Given.lines + [line], 0, ""), Split(Given.lines + [line], 0, "");
      } else {
        assert line == t[..eol - cur] && t[eol - cur] == buf[eol];
        HoldsLine(Given, t, Seen, eol - cur);
        Given := Split(Given.lines + [line], 0, "");
      }
      hide Holds;
      buf[eol] := '\0';
      cur := eol + 1;
      lost := prompt && (cur == buf.Length || buf[cur] != '\0');
      if prompt {
        if !lost {
          End := cur;
          HoldsNothing(Given);
          assert Text() == "";
        }
      } else {
        assert Text() == t[eol - old(cur) + 1..];
      }
    }

    /** Line 203: ends the text, now t, behind the characters just read at pRead. */
    method Append(pRead: nat, count: nat, ghost t: string, ghost seen: Split)
      requires buf.Length == MaxAtResponse + 1 && cur <= pRead + count <= MaxAtResponse
      requires buf[cur..pRead + count] == t && Holds(Given, t, seen)
      modifies this`End, this`Seen, buf
      ensures Valid() && End == pRead + count && Seen == seen && Text() == t
    {
      hide Holds;
      Seen := seen;
      End := pRead + count;
      buf[pRead + count] := '\0';
    }

    ghost predicate IsLine(eol: nat)
      reads this, buf
    {
      Shape() && cur < eol < End && IsEol(buf[eol]) && NoEol(buf[cur..eol])
    }

    /** The whole text is the prompt. */
    ghost predicate IsPrompt(eol: nat)
      reads this, buf
    {
      Shape() && Text() == "> " && eol == End
    }

    /** What the search has found. */
    ghost predicate Searched(eol: Option<nat>, prompt: bool)
      reads this, buf
    {
      match eol
      case None => Shape() && !prompt && NoEol(Text())
      case Some(p) => if prompt then IsPrompt(p) else IsLine(p)
    }

    /** findNextEOL behind the leading newlines. */
    method FindLine() returns (eol: Option<nat>, prompt: bool)
      requires Valid() && (Text() != "" ==> !IsEol(Text()[0]))
      ensures Searched(eol, prompt)
    {
      eol, prompt := FindNextEol();
      TextHead();
    }

    /** Lines 185-191: a full buffer without a line end is ditched. */
    method Ditched(pRead0: nat) returns (pRead: nat, ghost ditched: bool)
      requires Valid() && pRead0 == End && cur <= Given.gap && NoEol(Text())
      modifies this`cur, this`End, this`Given, this`Seen, buf
      ensures Valid() && pRead == End < MaxAtResponse && cur <= Given.gap && NoEol(Text())
      ensures Given.lines == old(Given).lines
      ensures ditched <==> pRead0 == MaxAtResponse
      ensures ditched ==> Allowed(old(Seen), Ditch) && Seen == FeedEvent(old(Seen), Ditch)
      ensures !ditched ==> Seen == old(Seen)
    {
      pRead, ditched := pRead0, MaxAtResponse - pRead0 == 0;
      HoldsPartial(Given, Text(), Seen);
      if MaxAtResponse - pRead0 == 0 {
        Given, Seen := Split(Given.lines, 0, ""), Split(Given.lines, 0, "");
        cur := 0;
        buf[cur] := '\0';
        End := 0;
        HoldsNothing(Given);
        hide Holds;
        pRead := 0;
        assert Text() == "";
      }
    }

    /** Lines 193-197: one read, repeated while it is interrupted. */
    method ReadRetry(port: Port, pRead: nat) returns (count: int)
      requires buf.Length == MaxAtResponse + 1 && pRead < MaxAtResponse && buf[pRead] == '\0'
      modifies buf, port
      ensures -1 <= count <= |old(port.pending)| && pRead + count <= MaxAtResponse
      ensures buf[..pRead] == old(buf[..pRead])
      ensures count > 0 ==> port.pending == old(port.pending)[count..]
      ensures count > 0 ==> buf[pRead..pRead + count] == old(port.pending)[..count]
      ensures count <= 0 ==> port.pending == old(port.pending) && buf[pRead] == '\0'
      ensures |port.plan| < |old(port.plan)| || (old(port.plan) == [] == port.plan && count == 0)
      ensures ReadOn(old(port.plan), old(port.pending), port.plan, port.pending)
      ensures count <= 0 ==> GaveNothing(old(port.plan), port.plan, port.pending)
    {
      hide ReadOn, GaveNothing;
      var errno: Errno;
      count, errno := port.Read(buf, pRead, MaxAtResponse - pRead);
      while count < 0 && errno == Eintr
        invariant -1 <= count <= |old(port.pending)| && pRead + count <= MaxAtResponse
        invariant buf[..pRead] == old(buf[..pRead])
        invariant count > 0 ==> port.pending == old(port.pending)[count..]
        invariant count > 0 ==> buf[pRead..pRead + count] == old(port.pending)[..count]
        invariant count <= 0 ==> port.pending == old(port.pending) && buf[pRead] == '\0'
        invariant |port.plan| < |old(port.plan)| || (old(port.plan) == [] == port.plan && count == 0)
        invariant ReadOn(old(port.plan), old(port.pending), port.plan, port.pending)
        invariant errno == Eintr ==> count < 0
        invariant count <= 0 && errno != Eintr ==> GaveNothing(old(port.plan), port.plan, port.pending)
        decreases |port.plan|, count < 0 && errno == Eintr
      {
        ghost var plan, pending := port.plan, port.pending;
        count, errno := port.Read(buf, pRead, MaxAtResponse - pRead);
        ReadOnJoin(old(port.plan), old(port.pending), plan, pending, port.plan, port.pending);
      }
    }

    /** Lines 193-209 for a read that was not interrupted. */
    method Refill(port: Port, pRead0: nat) returns (count: int, eol: Option<nat>, prompt: bool, pRead: nat)
      requires Valid() && NoNul(port.pending) && pRead0 == End < MaxAtResponse && cur <= Given.gap && NoEol(Text())
      modifies this`cur, this`End, this`Given, this`Seen, buf, port
      ensures -1 <= count <= |old(port.pending)| && Valid()
      ensures var c := if count < 0 then 0 else count;
              && port.pending == old(port.pending)[c..]
              && Seen == FeedAll(old(Seen), old(port.pending)[..c])
      ensures Given.lines == old(Given).lines
      ensures cur <= Given.gap && pRead == End && Searched(eol, prompt)
      ensures count <= 0 ==> eol == None
      ensures |port.plan| < |old(port.plan)| || (old(port.plan) == [] == port.plan && count == 0)
      ensures ReadOn(old(port.plan), old(port.pending), port.plan, port.pending)
      ensures count <= 0 ==> GaveNothing(old(port.plan), port.plan, port.pending)
    {
      hide Holds, FeedAll, ReadOn, GaveNothing;
      ghost var t, pending := Text(), port.pending;
      count := ReadRetry(port, pRead0);
      assert buf[cur..End] == t by {
        assert buf[cur..End] == buf[..pRead0][cur..] == old(buf[..pRead0])[cur..];
      }
      eol, prompt, pRead := None, false, pRead0;
      assert pending[0..] == pending && pending[..0] == "";
      FeedNone(Seen);
      if count > 0 {
        HoldsMore(Given, t, Seen, pending[..count]);
        assert buf[cur..pRead0 + count] == t + pending[..count];
        Append(pRead0, count, t + pending[..count], FeedAll(Seen, pending[..count]));
        SkipNewlines();
        eol, prompt := FindLine();
        pRead := pRead0 + count;
      }
    }

    /** readline: the next line, or nothing when the last read failed or returned nothing. A
        prompt is a line too; lost says that text from before is behind it. */
    method ReadLine(port: Port) returns (line: Option<string>, lost: bool, ghost events: seq<Event>, ghost c: nat)
      requires Valid() && NoNul(port.pending)
      modifies this`cur, this`End, this`Given, this`Seen, buf, port
      ensures c <= |old(port.pending)| && port.pending == old(port.pending)[c..]
      ensures Went(old(Seen), events, Seen, old(port.pending), c)
      ensures !lost ==> Valid()
      ensures line.Some? ==> Given.lines == old(Given).lines + [line.value]
      ensures line.None? ==> !lost && Given.lines == old(Given).lines == Seen.lines
      ensures lost ==> Prompt in events && Given.lines == Seen.lines
      ensures ReadOn(old(port.plan), old(port.pending), port.plan, port.pending)
      ensures line.None? ==> GaveNothing(old(port.plan), port.plan, port.pending)
    {
      hide Holds, FeedAll, NoEol, Went, Allowed, FeedEvent, ReadOn, GaveNothing;
      NoneRead(port.plan, port.pending);
      ghost var stream, start := port.pending, Seen;
      events, c := [], 0;
      assert stream[0..] == stream;
      WentNowhere(start, stream);
      var eol, prompt, pRead := FirstLook();
      while eol == None
        invariant Valid() && Given.lines == old(Given).lines && Searched(eol, prompt)
        invariant eol == None ==> pRead == End && cur <= Given.gap
        invariant c <= |stream| && port.pending == stream[c..] && Went(start, events, Seen, stream, c)
        invariant ReadOn(old(port.plan), old(port.pending), port.plan, port.pending)
        decreases |port.plan|, eol == None
      {
        var count: int;
        ghost var n: nat;
        ghost var plan, pending := port.plan, port.pending;
        count, eol, prompt, pRead, events, n := Round(port, pRead, start, events, stream, c);
        c := c + n;
        ReadOnJoin(old(port.plan), old(port.pending), plan, pending, port.plan, port.pending);
        if count <= 0 {
          PartialIsSeen();
          return None, false, events, c;
        }
      }
      ghost var seen := Seen;
      var l;
      l, lost := Take(eol.value, prompt);
      line := Some(l);
      if prompt {
        WentAt(start, events, seen, stream, c, Prompt);
        events := events + [Prompt];
      }
    }

    /** Lines 185-219: one round of the loop. */
    method Round(port: Port, pRead0: nat, ghost start: Split, ghost events0: seq<Event>, ghost stream: string,
                 ghost c: nat)
      returns (count: int, eol: Option<nat>, prompt: bool, pRead: nat, ghost events: seq<Event>, ghost n: nat)
      requires Valid() && NoNul(stream) && pRead0 == End && cur <= Given.gap && NoEol(Text())
      requires c <= |stream| && port.pending == stream[c..] && Went(start, events0, Seen, stream, c)
      modifies this`cur, this`End, this`Given, this`Seen, buf, port
      ensures Valid() && Given.lines == old(Given).lines && cur <= Given.gap && pRead == End && Searched(eol, prompt)
      ensures c + n <= |stream| && port.pending == stream[c + n..] && Went(start, events, Seen, stream, c + n)
      ensures count <= 0 ==> eol == None && n == 0
      ensures |port.plan| < |old(port.plan)| || (old(port.plan) == [] == port.plan && count == 0)
      ensures ReadOn(old(port.plan), old(port.pending), port.plan, port.pending)
      ensures count <= 0 ==> GaveNothing(old(port.plan), port.plan, port.pending)
    {
      hide Holds, FeedAll, NoEol, NoNul, Went, Allowed, FeedEvent, ReadOn, GaveNothing;
      ghost var ditched;
      ghost var seen := Seen;
      events := events0;
      pRead, ditched := Ditched(pRead0);
      if ditched {
        WentAt(start, events, seen, stream, c, Ditch);
        events := events + [Ditch];
      }
      NulFree(stream, c);
      seen := Seen;
      count, eol, prompt, pRead := Refill(port, pRead);
      n := if count < 0 then 0 else count;
      events := WentOn(start, events, seen, stream, c, n);
      assert stream[c..][n..] == stream[c + n..];
    }

    lemma PartialIsSeen()
      requires Valid() && NoEol(Text())
      ensures Given.lines == Seen.lines
    {
      HoldsPartial(Given, Text(), Seen);
    }

    lemma GivenIsSeen()
      requires Valid()
      ensures Given.lines <= Seen.lines
    {
      FeedGrows(Given, Text());
    }

    /** Lines 156-182: looks for a line in what the last read left over. */
    method FirstLook() returns (eol: Option<nat>, prompt: bool, pRead: nat)
      requires Valid()
      modifies this`cur, this`End, this`Given, buf
      ensures Valid() && Given.lines == old(Given).lines && Searched(eol, prompt)
      ensures eol == None ==> pRead == End && cur <= Given.gap
    {
      hide Holds, FeedAll;
      eol, prompt, pRead := None, false, 0;
      if buf[cur] == '\0' {
        Restart();
      } else {
        SkipNewlines();
        eol, prompt := FindLine();
        if eol == None {
          pRead := MoveUp();
        }
      }
    }
  }

  lemma NulFree(s: string, c: nat)
    requires NoNul(s) && c <= |s|
    ensures NoNul(s[c..])
  {
  }

  /** readerLoop: readline until it returns nothing, or the text behind a prompt is lost: exactly
      the lines of what was read, with what happened on the way. */
  method ReadLines(channel: Channel, port: Port)
    returns (lines: seq<string>, lost: bool, ghost events: seq<Event>, ghost c: nat)
    requires channel.Valid() && channel.Seen == channel.Given == Start && NoNul(port.pending)
    modifies channel, channel.buf, port
    ensures c <= |old(port.pending)| && port.pending == old(port.pending)[c..]
    ensures Happens(Start, events) && Chars(events) == old(port.pending)[..c]
    ensures lines == FeedEvents(Start, events).lines
    ensures lost ==> Prompt in events
    ensures !lost ==> GaveNothing(old(port.plan), port.plan, port.pending)
    ensures !lost && Delivers(old(port.plan), old(port.pending)) ==> port.pending == ""
  {
    hide Channel.Valid, Went, ReadOn, GaveNothing, Delivers;
    ghost var stream := port.pending;
    events, c := [], 0;
    lines, lost := [], false;
    assert stream[0..] == stream;
    WentNowhere(Start, stream);
    NoneRead(port.plan, stream);
    var more := true;
    while more && !lost
      invariant !lost ==> channel.Valid()
      invariant c <= |stream| && port.pending == stream[c..] && Went(Start, events, channel.Seen, stream, c)
      invariant lines == channel.Given.lines && |lines| <= |stream|
      invariant lost ==> Prompt in events
      invariant !more || lost ==> lines == channel.Seen.lines
      invariant ReadOn(old(port.plan), stream, port.plan, port.pending)
      invariant !more ==> !lost && GaveNothing(old(port.plan), port.plan, port.pending)
      decreases more, |stream| - |lines|, !lost
    {
      ghost var seen, plan, pending := channel.Seen, port.plan, port.pending;
      var line: Option<string>;
      ghost var happened, n;
      NulFree(stream, c);
      line, lost, happened, n := channel.ReadLine(port);
      WentJoin(Start, events, seen, stream, c, happened, channel.Seen, n);
      ReadOnJoin(old(port.plan), stream, plan, pending, port.plan, port.pending);
      assert stream[c..][n..] == stream[c + n..];
      events, c := events + happened, c + n;
      if line.None? {
        more := false;
      } else {
        lines := lines + [line.value];
        if !lost {
          channel.GivenIsSeen();
        }
        WentLines(events, channel.Seen, stream, c);
      }
    }
    WentMeans(events, channel.Seen, stream, c);
    if !lost && Delivers(old(port.plan), stream) {
      AllRead(old(port.plan), stream, port.plan, port.pending);
    }
  }

  lemma WentLines(events: seq<Event>, g: Split, stream: string, c: nat)
    requires Went(Start, events, g, stream, c)
    ensures |g.lines| <= |stream|
  {
    LineCount(Start, events);
  }

  lemma WentMeans(events: seq<Event>, g: Split, stream: string, c: nat)
    requires Went(Start, events, g, stream, c)
    ensures Happens(Start, events) && Chars(events) == stream[..c] && g == FeedEvents(Start, events)
  {
  }

  predicate IsItem(gap: string, line: string) {
    AllEol(gap) && NoEol(line) && NoNul(line)
  }

  /** An item of a text fits the buffer and is not the prompt. */
  predicate ItemFits(gap: string, line: string) {
    IsItem(gap, line) && |gap| + |line| < MaxAtResponse && !("> " <= line)
  }

  ghost predicate AllItemsFit(lines: seq<string>, gaps: seq<string>, gap: string, tail: string)
    requires |gaps| == |lines|
  {
    (forall i :: 0 <= i < |lines| ==> ItemFits(gaps[i], lines[i])) && ItemFits(gap, tail)
  }

  lemma {:induction false} TextNulFree(lines: seq<string>, gaps: seq<string>, ends: seq<char>)
    requires |gaps| == |ends| == |lines|
    requires forall i :: 0 <= i < |lines| ==> IsItem(gaps[i], lines[i]) && IsEol(ends[i])
    ensures NoNul(Text(lines, gaps, ends))
  {
    if lines != [] {
      var n := |lines| - 1;
      TextNulFree(lines[..n], gaps[..n], ends[..n]);
      assert IsItem(gaps[n], lines[n]) && IsEol(ends[n]);
    }
  }

  lemma ItemPrefixFits(f: Split, gap: string, line: string, k: nat)
    requires f.partial == "" && f.gap == 0 && ItemFits(gap, line) && k <= |gap + line|
    ensures Room(FeedAll(f, (gap + line)[..k]))
  {
    hide FeedAll;
    if k <= |gap| {
      assert (gap + line)[..k] == gap[..k];
      FeedNewlines(f, gap[..k]);
    } else {
      var l := line[..k - |gap|];
      assert (gap + line)[..k] == gap + l;
      FeedAppend(f, gap, l);
      FeedNewlines(f, gap);
      FeedText(f.(gap := |gap|), l);
      assert "" + l == l;
      assert l <= line;
    }
  }

  lemma FitsAppend(f: Split, s: string, t: string)
    requires Fits(f, s) && Fits(FeedAll(f, s), t)
    ensures Fits(f, s + t)
  {
    forall k | 0 <= k <= |s + t|
      ensures Room(FeedAll(f, (s + t)[..k]))
    {
      if k <= |s| {
        assert (s + t)[..k] == s[..k];
      } else {
        assert (s + t)[..k] == s + t[..k - |s|];
        FeedAppend(f, s, t[..k - |s|]);
      }
    }
  }

  lemma ItemFitsStream(f: Split, gap: string, line: string)
    requires f.partial == "" && f.gap == 0 && ItemFits(gap, line)
    ensures Fits(f, gap + line)
  {
    assert forall i :: 0 <= i < |gap| ==> IsEol(gap[i]);
    forall k | 0 <= k <= |gap + line|
      ensures Room(FeedAll(f, (gap + line)[..k]))
    {
      ItemPrefixFits(f, gap, line, k);
    }
  }

  lemma LineFitsStream(f: Split, gap: string, line: string, end: char)
    requires f.partial == "" && f.gap == 0 && ItemFits(gap, line) && line != "" && IsEol(end)
    ensures Fits(f, gap + (line + [end]))
  {
    var s := gap + line;
    ItemFitsStream(f, gap, line);
    FeedItem(f, gap, line, end);
    assert gap + (line + [end]) == s + [end];
    FeedAppend(f, s, [end]);
    var g := FeedAll(f, s);
    assert [end][..0] == "" && [end][..1] == [end];
    FeedNone(g);
    assert Room(g) by { assert s[..|s|] == s; }
    FitsAppend(f, s, [end]);
  }

  lemma {:induction false} TextFits(lines: seq<string>, gaps: seq<string>, ends: seq<char>)
    requires |gaps| == |ends| == |lines|
    requires forall i :: 0 <= i < |lines| ==> lines[i] != "" && ItemFits(gaps[i], lines[i]) && IsEol(ends[i])
    ensures Fits(Start, Text(lines, gaps, ends))
  {
    var n := |lines|;
    if n == 0 {
      FeedNone(Start);
    } else {
      TextFits(lines[..n - 1], gaps[..n - 1], ends[..n - 1]);
      TextLines(lines[..n - 1], gaps[..n - 1], ends[..n - 1]);
      LineFitsStream(Split(lines[..n - 1], 0, ""), gaps[n - 1], lines[n - 1], ends[n - 1]);
      FitsAppend(Start, Text(lines[..n - 1], gaps[..n - 1], ends[..n - 1]),
                 gaps[n - 1] + (lines[n - 1] + [ends[n - 1]]));
    }
  }

  /** A text of lines, with an unfinished line behind it, read with any read sizes,
      interruptions and failures, until readline returns nothing. As long as all lines fit the
      buffer and none is a prompt, what it returned before is a prefix of the lines, and all of
      them once the text is used up; it is used up when no read fails and there is one for every
      character. */
  method ReadText(lines: seq<string>, gaps: seq<string>, ends: seq<char>, gap: string, tail: string,
                  plan: seq<ReadResult>) returns (got: seq<string>, lost: bool, port: Port)
    requires |gaps| == |ends| == |lines| && IsItem(gap, tail)
    requires forall i :: 0 <= i < |lines| ==> lines[i] != "" && IsItem(gaps[i], lines[i]) && IsEol(ends[i])
    ensures AllItemsFit(lines, gaps, gap, tail) ==> !lost && got <= lines && (port.pending == "" ==> got == lines)
    ensures AllItemsFit(lines, gaps, gap, tail) ==> GaveNothing(plan, port.plan, port.pending)
    ensures AllItemsFit(lines, gaps, gap, tail) && Delivers(plan, Text(lines, gaps, ends) + (gap + tail)) ==>
      got == lines && port.pending == ""
  {
    ghost var stream := Text(lines, gaps, ends) + (gap + tail);
    port := new Port(Text(lines, gaps, ends) + (gap + tail), plan);
    var channel := new Channel();
    TextNulFree(lines, gaps, ends);
    hide FeedAll, FeedEvents, Chars, Happens, Channel.Valid, Text, Fits, GaveNothing, Delivers;
    ghost var events, c;
    got, lost, events, c := ReadLines(channel, port);
    if AllItemsFit(lines, gaps, gap, tail) {
      WholeTextFits(lines, gaps, ends, gap, tail);
      NothingElse(events, stream);
      ReadSoFar(stream, c);
    }
  }

  lemma WholeTextFits(lines: seq<string>, gaps: seq<string>, ends: seq<char>, gap: string, tail: string)
    requires |gaps| == |ends| == |lines| && AllItemsFit(lines, gaps, gap, tail)
    requires forall i :: 0 <= i < |lines| ==> lines[i] != "" && IsEol(ends[i])
    ensures var stream := Text(lines, gaps, ends) + (gap + tail);
      Fits(Start, stream) && FeedAll(Start, stream).lines == lines
  {
    var text := Text(lines, gaps, ends);
    TextFits(lines, gaps, ends);
    TextLines(lines, gaps, ends);
    ItemFitsStream(Split(lines, 0, ""), gap, tail);
    FitsAppend(Start, text, gap + tail);
    WholeStream(lines, text, gap, tail);
    hide Fits, FeedAll, Text;
  }

  /** A stream that fits is read character by character. */
  lemma NothingElse(events: seq<Event>, stream: string)
    requires Fits(Start, stream) && Happens(Start, events) && Chars(events) <= stream
    ensures FeedEvents(Start, events) == FeedAll(Start, Chars(events)) && Prompt !in events
  {
    OnlyChars(Start, events, stream);
  }

  lemma ReadSoFar(stream: string, c: nat)
    requires c <= |stream|
    ensures FeedAll(Start, stream[..c]).lines <= FeedAll(Start, stream).lines
    ensures stream[c..] == "" ==> FeedAll(Start, stream[..c]) == FeedAll(Start, stream)
  {
    hide FeedAll;
    TakeAll(stream, c);
    FeedAppend(Start, stream[..c], stream[c..]);
    FeedGrows(FeedAll(Start, stream[..c]), stream[c..]);
  }

  lemma WholeStream(lines: seq<string>, text: string, gap: string, tail: string)
    requires FeedAll(Start, text) == Split(lines, 0, "") && AllEol(gap) && NoEol(tail)
    ensures FeedAll(Start, text + (gap + tail)).lines == lines
  {
    FeedAppend(Start, text, gap + tail);
    FeedAppend(Split(lines, 0, ""), gap, tail);
    FeedNewlines(Split(lines, 0, ""), gap);
    FeedText(Split(lines, |gap|, ""), tail);
  }

  /** What fits: newline characters and a line, in all fewer than the 8192 of the buffer, and
      not the prompt. */
  lemma ItemFitsIs(gap: string, line: string)
    ensures ItemFits(gap, line)
            <==> && |gap| + |line| < 8192 && !("> " <= line)
                 && (forall i :: 0 <= i < |gap| ==> gap[i] in "\r\n")
                 && forall i :: 0 <= i < |line| ==> line[i] !in "\r\n\0"
  {
  }

  /** Two lines that come in pieces. */
  method ReadInPieces() returns (got: seq<string>)
    ensures got == ["OK", "+CSQ: 20,0"]
  {
    var plan := [Data(1), Data(7), Data(40)] + seq(18, i => Data(1));
    var lines, gaps, ends := ["OK", "+CSQ: 20,0"], ["\r\n", "\n"], ['\r', '\r'];
    PiecesFit(lines, gaps, ends, plan);
    hide ItemFits, IsItem, Text, Delivers, NoEol, AllEol, NoNul;
    var lost, port;
    got, lost, port := ReadText(lines, gaps, ends, "\n", "", plan);
  }

  lemma PiecesFit(lines: seq<string>, gaps: seq<string>, ends: seq<char>, plan: seq<ReadResult>)
    requires lines == ["OK", "+CSQ: 20,0"] && gaps == ["\r\n", "\n"] && ends == ['\r', '\r']
    requires plan == [Data(1), Data(7), Data(40)] + seq(18, i => Data(1))
    ensures AllItemsFit(lines, gaps, "\n", "") && IsItem("\n", "") && IsEol('\r')
    ensures forall i :: 0 <= i < |lines| ==> lines[i] != "" && IsItem(gaps[i], lines[i]) && IsEol(ends[i])
    ensures Delivers(plan, Text(lines, gaps, ends) + ("\n" + ""))
  {
    assert !("> " <= lines[0]) && !("> " <= lines[1]) by {
      assert lines[0][0] != '>' && lines[1][0] != '>';
    }
    ItemFitsIs(gaps[0], lines[0]);
    ItemFitsIs(gaps[1], lines[1]);
    ItemFitsIs("\n", "");
    PiecesText(lines, gaps, ends);
    hide ItemFits, IsItem, NoEol, AllEol, NoNul, Text, Delivers;
    EnoughReads(plan, Text(lines, gaps, ends) + ("\n" + ""));
  }

  lemma PiecesText(lines: seq<string>, gaps: seq<string>, ends: seq<char>)
    requires |lines| == |gaps| == |ends| == 2
    ensures |Text(lines, gaps, ends)| == |gaps[0]| + |lines[0]| + 1 + |gaps[1]| + |lines[1]| + 1
  {
    assert lines[..1][..0] == [] && gaps[..1][..0] == [] && ends[..1][..0] == [];
    assert Text(lines[..1], gaps[..1], ends[..1]) == Text([], [], []) + (gaps[0] + (lines[0] + [ends[0]]));
  }
}
