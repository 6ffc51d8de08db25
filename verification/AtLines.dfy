/** What a stream of AT text means: the non-empty runs of characters between carriage
    returns and line feeds. */
module AtLines {

  const MaxAtResponse := 8192

  predicate IsEol(c: char) {
    c == '\r' || c == '\n'
  }

  predicate AllEol(s: string) {
    forall i :: 0 <= i < |s| ==> IsEol(s[i])
  }

  predicate NoEol(s: string) {
    forall i :: 0 <= i < |s| ==> !IsEol(s[i])
  }

  predicate NoNul(s: string) {
    forall i :: 0 <= i < |s| ==> s[i] != '\0'
  }

  /** What has been found: the complete lines, the number of newline characters since the
      end of the last one, and the characters of the next line. */
  datatype Split = Split(lines: seq<string>, gap: nat, partial: string)

  const Start := Split([], 0, "")

  function Feed(f: Split, c: char): Split {
    if !IsEol(c) then f.(partial := f.partial + [c])
    else if f.partial == "" then f.(gap := f.gap + 1)
    else Split(f.lines + [f.partial], 0, "")
  }

  function FeedAll(f: Split, s: string): Split {
    if s == "" then f else Feed(FeedAll(f, s[..|s| - 1]), s[|s| - 1])
  }

  lemma {:induction false} FeedAppend(f: Split, s: string, t: string)
    ensures FeedAll(f, s + t) == FeedAll(FeedAll(f, s), t)
  {
    if t == "" {
      assert s + t == s;
    } else {
      var t' := t[..|t| - 1];
      assert (s + t)[..|s + t| - 1] == s + t';
      FeedAppend(f, s, t');
    }
  }

  lemma {:induction false} FeedNewlines(f: Split, s: string)
    requires f.partial == "" && AllEol(s)
    ensures FeedAll(f, s) == f.(gap := f.gap + |s|)
  {
    if s != "" {
      FeedNewlines(f, s[..|s| - 1]);
    }
  }

  lemma {:induction false} FeedText(f: Split, s: string)
    requires NoEol(s)
    ensures FeedAll(f, s) == f.(partial := f.partial + s)
  {
    if s == "" {
      assert f.partial + s == f.partial;
    } else {
      FeedText(f, s[..|s| - 1]);
      assert f.partial + s[..|s| - 1] + [s[|s| - 1]] == f.partial + s;
    }
  }

  lemma FeedLine(f: Split, s: string, rest: string)
    requires f.partial == "" && NoEol(s) && s != "" && rest != "" && IsEol(rest[0])
    ensures FeedAll(f, s + rest) == FeedAll(Split(f.lines + [s], 0, ""), rest[1..])
  {
    FeedText(f, s);
    assert "" + s == s;
    assert s + rest == s + rest[..1] + rest[1..];
    FeedAppend(f, s + rest[..1], rest[1..]);
    FeedAppend(f, s, rest[..1]);
    FeedOne(FeedAll(f, s), rest[..1]);
  }

  lemma FeedOne(f: Split, s: string)
    requires |s| == 1
    ensures FeedAll(f, s) == Feed(f, s[0])
  {
    assert FeedAll(f, s[..0]) == f;
  }

  lemma {:induction false} FeedGrows(f: Split, s: string)
    ensures f.lines <= FeedAll(f, s).lines
  {
    if s != "" {
      FeedGrows(f, s[..|s| - 1]);
    }
  }

  // ------------------------------------------------------------------ what else can happen

  /** A character is read, the buffer is ditched, or its text is taken for a prompt. */
  datatype Event = Char(c: char) | Ditch | Prompt

  function FeedEvent(f: Split, e: Event): Split {
    match e
    case Char(c) => Feed(f, c)
    case Ditch => Split(f.lines, 0, "")
    case Prompt => Split(f.lines + [f.partial], 0, "")
  }

  function FeedEvents(f: Split, events: seq<Event>): Split {
    if events == [] then f
    else FeedEvent(FeedEvents(f, events[..|events| - 1]), events[|events| - 1])
  }

  /** The characters that were read. */
  function Chars(events: seq<Event>): string {
    if events == [] then ""
    else
      var front, e := Chars(events[..|events| - 1]), events[|events| - 1];
      if e.Char? then front + [e.c] else front
  }

  /** The newlines since the last line and the characters of the next one fit the buffer
      together, and the characters are not those of the SMS prompt. */
  predicate Room(f: Split) {
    f.gap + |f.partial| < MaxAtResponse && f.partial != "> "
  }

  /** Something else than a character: the buffer was full, or it held the prompt. */
  predicate Allowed(f: Split, e: Event) {
    match e
    case Char(_) => true
    case Ditch => f.gap + |f.partial| >= MaxAtResponse
    case Prompt => f.partial == "> "
  }

  ghost predicate Happens(f: Split, events: seq<Event>) {
    events != [] ==>
      && Happens(f, events[..|events| - 1])
      && Allowed(FeedEvents(f, events[..|events| - 1]), events[|events| - 1])
  }

  /** From f on the stream was read up to c, with those events, which lead to g. */
  ghost predicate Went(f: Split, events: seq<Event>, g: Split, stream: string, c: nat) {
    c <= |stream| && Chars(events) == stream[..c] && g == FeedEvents(f, events) && Happens(f, events)
  }

  lemma WentNowhere(f: Split, stream: string)
    ensures Went(f, [], f, stream, 0)
  {
  }

  lemma WentAt(f: Split, events: seq<Event>, g: Split, stream: string, c: nat, e: Event)
    requires Went(f, events, g, stream, c) && Allowed(g, e) && (e.Char? ==> c < |stream| && stream[c] == e.c)
    ensures Went(f, events + [e], FeedEvent(g, e), stream, if e.Char? then c + 1 else c)
  {
    assert (events + [e])[..|events|] == events;
  }

  /** Characters are read. */
  lemma {:induction false} WentOn(f: Split, events: seq<Event>, g: Split, stream: string, c: nat, n: nat)
    returns (more: seq<Event>)
    requires Went(f, events, g, stream, c) && c + n <= |stream|
    ensures Went(f, more, FeedAll(g, stream[c..][..n]), stream, c + n)
  {
    if n == 0 {
      more := events;
      assert stream[c..][..0] == "";
    } else {
      var front := WentOn(f, events, g, stream, c, n - 1);
      var read := stream[c..][..n];
      assert read[..n - 1] == stream[c..][..n - 1] && read[n - 1] == stream[c + n - 1];
      WentAt(f, front, FeedAll(g, read[..n - 1]), stream, c + n - 1, Char(read[n - 1]));
      more := front + [Char(read[n - 1])];
    }
  }

  /** One part of a stream after the other. */
  lemma {:induction false} WentJoin(f: Split, events: seq<Event>, g: Split, stream: string, c: nat, more: seq<Event>,
                                    h: Split, n: nat)
    requires Went(f, events, g, stream, c) && Went(g, more, h, stream[c..], n)
    ensures Went(f, events + more, h, stream, c + n)
  {
    if more == [] {
      assert events + more == events;
    } else {
      var front, e := more[..|more| - 1], more[|more| - 1];
      var k := if e.Char? then n - 1 else n;
      assert Chars(front) == stream[c..][..k];
      WentJoin(f, events, g, stream, c, front, FeedEvents(g, front), k);
      WentAt(f, events + front, FeedEvents(g, front), stream, c + k, e);
      assert events + front + [e] == events + more;
    }
  }

  /** A line takes its characters. */
  lemma {:induction false} LineCount(f: Split, events: seq<Event>)
    requires Happens(f, events)
    ensures var g := FeedEvents(f, events);
      |g.lines| + |g.partial| <= |f.lines| + |f.partial| + |Chars(events)|
  {
    if events != [] {
      LineCount(f, events[..|events| - 1]);
    }
  }

  /** As long as there is room nothing else happens. */
  lemma {:induction false} OnlyChars(f: Split, events: seq<Event>, stream: string)
    requires Happens(f, events) && Chars(events) <= stream
    requires forall n :: 0 <= n <= |stream| ==> Room(FeedAll(f, stream[..n]))
    ensures FeedEvents(f, events) == FeedAll(f, Chars(events)) && forall e :: e in events ==> e.Char?
  {
    if events != [] {
      var front, e := events[..|events| - 1], events[|events| - 1];
      CharsNext(front, e);
      assert events == front + [e];
      var read := Chars(front);
      assert stream[..|read|] == read && Room(FeedAll(f, stream[..|read|]));
      hide Chars, FeedAll, Room;
      OnlyChars(f, front, stream);
      RoomMeans(FeedAll(f, read), e);
      FeedNext(f, read, e.c);
    }
  }

  lemma CharsNext(events: seq<Event>, e: Event)
    ensures Chars(events + [e]) == if e.Char? then Chars(events) + [e.c] else Chars(events)
  {
    assert (events + [e])[..|events|] == events;
  }

  lemma RoomMeans(f: Split, e: Event)
    requires Room(f) && Allowed(f, e)
    ensures e.Char?
  {
  }

  lemma FeedNext(f: Split, s: string, c: char)
    ensures FeedAll(f, s + [c]) == Feed(FeedAll(f, s), c)
  {
    assert (s + [c])[..|s|] == s;
  }

  /** A text: each line between a run of newline characters and its terminator. */
  function Text(lines: seq<string>, gaps: seq<string>, ends: seq<char>): string
    requires |gaps| == |ends| == |lines|
  {
    var n := |lines|;
    if n == 0 then ""
    else Text(lines[..n - 1], gaps[..n - 1], ends[..n - 1]) + (gaps[n - 1] + (lines[n - 1] + [ends[n - 1]]))
  }

  /** The lines of a text are the lines it was made of. */
  lemma {:induction false} TextLines(lines: seq<string>, gaps: seq<string>, ends: seq<char>)
    requires |gaps| == |ends| == |lines|
    requires forall i :: 0 <= i < |lines| ==> lines[i] != "" && NoEol(lines[i]) && AllEol(gaps[i]) && IsEol(ends[i])
    ensures FeedAll(Start, Text(lines, gaps, ends)) == Split(lines, 0, "")
  {
    var n := |lines|;
    if n > 0 {
      var f, item := Split(lines[..n - 1], 0, ""), gaps[n - 1] + (lines[n - 1] + [ends[n - 1]]);
      TextLines(lines[..n - 1], gaps[..n - 1], ends[..n - 1]);
      FeedAppend(Start, Text(lines[..n - 1], gaps[..n - 1], ends[..n - 1]), item);
      FeedItem(f, gaps[n - 1], lines[n - 1], ends[n - 1]);
      assert lines[..n - 1] + [lines[n - 1]] == lines;
    }
  }

  lemma FeedItem(f: Split, gap: string, line: string, end: char)
    requires f.partial == "" && AllEol(gap) && line != "" && NoEol(line) && IsEol(end)
    ensures FeedAll(f, gap + (line + [end])) == Split(f.lines + [line], 0, "")
  {
    FeedAppend(f, gap, line + [end]);
    FeedNewlines(f, gap);
    FeedLine(f.(gap := f.gap + |gap|), line, [end]);
    assert FeedAll(Split(f.lines + [line], 0, ""), [end][1..]) == Split(f.lines + [line], 0, "");
  }
}
