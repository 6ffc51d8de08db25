/** The field parser of libs/aGPS/lib/parser.c, which cuts the line it reads in place, with the
    uplink printer and the downlink handler of libs/aGPS/generic/sprd_agps_agent.c. */
module AtFields {
  import opened AtText
  import opened Buffers
  import opened Options

  /** The terminated string t starts at i. */
  ghost predicate IsStr(s: seq<char>, i: nat, t: string) {
    i + |t| < |s| && s[i..i + |t|] == t && s[i + |t|] == '\0' && '\0' !in t
  }

  /** A cursor that may be NULL. */
  ghost predicate Points(s: seq<char>, cur: Option<nat>, t: Option<string>) {
    match t
    case None => cur.None?
    case Some(text) => cur.Some? && IsStr(s, cur.value, text)
  }

  lemma StrTail(s: seq<char>, i: nat, t: string, k: nat)
    requires IsStr(s, i, t) && k <= |t|
    ensures IsStr(s, i + k, t[k..])
  {
    assert s[i + k..i + |t|] == s[i..i + |t|][k..];
  }

  lemma StrKept(s: seq<char>, s': seq<char>, i: nat, t: string, end: nat)
    requires IsStr(s, i, t) && i + |t| < end <= |s| == |s'| && s'[..end] == s[..end]
    ensures IsStr(s', i, t)
  {
    forall j | i <= j <= i + |t|
      ensures s'[j] == s[j]
    {
      assert s'[..end][j] == s[..end][j];
    }
  }

  lemma StrAt(s: seq<char>, i: nat, t: string, k: nat)
    requires IsStr(s, i, t) && k <= |t|
    ensures i + k < |s| && s[i + k] == (if k == |t| then '\0' else t[k]) && (s[i + k] == '\0' <==> k == |t|)
  {
    if k < |t| {
      assert s[i..i + |t|][k] == s[i + k];
    }
  }

  /** A terminator put over the k-th character makes two strings. */
  lemma Cut(s: seq<char>, i: nat, t: string, k: nat)
    requires IsStr(s, i, t) && k < |t|
    ensures var s' := s[i + k := '\0'];
            IsStr(s', i, t[..k]) && IsStr(s', i + k + 1, t[k + 1..]) && s'[..i] == s[..i]
  {
    var s' := s[i + k := '\0'];
    assert s'[i..i + k] == s[i..i + |t|][..k];
    assert s'[i + k + 1..i + |t|] == s[i..i + |t|][k + 1..];
  }

  lemma {:induction false} SepFirst(t: string, d: char, k: nat)
    requires k <= |t| && d !in t[..k]
    ensures k == |t| ==> Sep(t, d) == (t, None)
    ensures k < |t| && t[k] == d ==> Sep(t, d) == (t[..k], Some(t[k + 1..]))
  {
    if k < |t| {
      if t[k] == d {
        assert t == t[..k] + [d] + t[k + 1..];
        SepAt(t[..k], d, t[k + 1..]);
      }
    } else {
      assert t[..k] == t;
      var (tok, rest) := Sep(t, d);
    }
  }

  /** The first delimiter or terminator. */
  method Scan(line: array<char>, start: nat, d: char, ghost t: string) returns (i: nat)
    requires IsStr(line[..], start, t)
    ensures i < line.Length && start <= i <= start + |t| && d !in t[..i - start]
    ensures line[i] == '\0' <==> i == start + |t|
    ensures i < start + |t| ==> line[i] == t[i - start] == d
  {
    hide IsStr;
    i := start;
    StrAt(line[..], start, t, 0);
    while line[i] != '\0' && line[i] != d
      invariant i < line.Length && start <= i <= start + |t| && d !in t[..i - start]
      invariant line[i] == (if i == start + |t| then '\0' else t[i - start]) && (line[i] == '\0' <==> i == start + |t|)
      decreases start + |t| - i
    {
      i := i + 1;
      StrAt(line[..], start, t, i - start);
    }
  }

  method CutAt(line: array<char>, start: nat, i: nat, ghost text: string)
    requires start <= i < start + |text| && IsStr(line[..], start, text)
    modifies line
    ensures IsStr(line[..], start, text[..i - start]) && IsStr(line[..], i + 1, text[i - start + 1..])
    ensures line[..start] == old(line[..start])
  {
    ghost var s := line[..];
    Cut(s, start, text, i - start);
    line[i] := '\0';
    assert line[..] == s[i := '\0'];
    hide IsStr;
  }

  /** strsep */
  method Strsep(line: array<char>, cur: Option<nat>, d: char, ghost t: Option<string>)
    returns (tok: Option<nat>, cur': Option<nat>)
    requires Points(line[..], cur, t)
    modifies line
    ensures tok == cur && Points(line[..], cur', SepOption(t, d).1)
    ensures cur.Some? ==> IsStr(line[..], cur.value, SepOption(t, d).0)
    ensures cur.Some? ==> line[..cur.value] == old(line[..cur.value])
    ensures cur'.Some? ==> cur.Some? && cur'.value == cur.value + |SepOption(t, d).0| + 1
    ensures cur.None? ==> line[..] == old(line[..])
  {
    hide IsStr, Sep;
    if cur.None? {
      return None, None;
    }
    ghost var text := t.value;
    var start := cur.value;
    var i := Scan(line, start, d, text);
    SepFirst(text, d, i - start);
    tok := cur;
    if line[i] == '\0' {
      cur' := None;
    } else {
      CutAt(line, start, i, text);
      cur' := Some(i + 1);
    }
  }

  ghost function SepOption(t: Option<string>, d: char): (string, Option<string>) {
    match t
    case None => ("", None)
    case Some(text) => Sep(text, d)
  }

  /** get_current_tok. The branch for a newline is never taken, as a newline is a space. */
  method GetCurrentTok(line: array<char>, cur: Option<nat>, ghost t: Option<string>)
    returns (tok: Option<nat>, cur': Option<nat>)
    requires Points(line[..], cur, t)
    modifies line
    ensures match t
            case None => tok.None? && cur'.None? && line[..] == old(line[..])
            case Some(text) =>
              && Points(line[..], cur', NextTok(text).1) && tok.Some? && IsStr(line[..], tok.value, NextTok(text).0)
  {
    hide IsStr;
    if cur.None? {
      return None, None;
    }
    ghost var s := line[..];
    var p := SkipSpace(line, cur.value, t.value);
    ghost var text := SkipSpaces(t.value);
    StrAt(s, p, text, 0);
    if line[p] == '"' {
      StrTail(s, p, text, 1);
      ghost var quoted := Some(text[1..]);
      tok, cur' := Strsep(line, Some(p + 1), '"', quoted);
      ghost var s1, end := line[..], cur';
      ghost var unused: Option<nat>;
      var ignored;
      ignored, cur' := Strsep(line, cur', ',', SepOption(quoted, '"').1);
      if end.Some? {
        StrKept(s1, line[..], p + 1, SepOption(quoted, '"').0, end.value);
      }
    } else {
      assert line[p] != '\n';
      tok, cur' := Strsep(line, Some(p), ',', Some(text));
    }
  }

  method SkipSpace(line: array<char>, start: nat, ghost t: string) returns (p: nat)
    requires IsStr(line[..], start, t)
    ensures IsStr(line[..], p, SkipSpaces(t))
  {
    hide IsStr, SkipSpaces;
    p := start;
    ghost var rest := t;
    StrAt(line[..], p, rest, 0);
    while line[p] != '\0' && IsSpace(line[p])
      invariant p < line.Length && IsStr(line[..], p, rest) && SkipSpaces(rest) == SkipSpaces(t)
      invariant line[p] == (if rest == "" then '\0' else rest[0]) && (line[p] == '\0' <==> rest == "")
      decreases |rest|
    {
      StrTail(line[..], p, rest, 1);
      p := p + 1;
      SpaceSkipped(rest);
      rest := rest[1..];
      StrAt(line[..], p, rest, 0);
    }
    NoSpaceSkipped(rest);
  }

  lemma SpaceSkipped(t: string)
    requires t != "" && IsSpace(t[0])
    ensures SkipSpaces(t[1..]) == SkipSpaces(t)
  {
  }

  lemma NoSpaceSkipped(t: string)
    ensures t == "" || !IsSpace(t[0]) ==> SkipSpaces(t) == t
  {
  }

  /** parse_nextint */
  method ParseNextInt(line: array<char>, cur: Option<nat>, ghost t: Option<string>)
    returns (err: int, out: int, cur': Option<nat>)
    requires Points(line[..], cur, t)
    modifies line
    ensures err == if t.None? then -1 else 0
    ensures t.Some? ==> NextInt(t).0 == Some(out)
    ensures Points(line[..], cur', NextInt(t).1)
  {
    if cur.None? {
      return -1, 0, None;
    }
    var tok;
    tok, cur' := GetCurrentTok(line, cur, t);
    if tok.None? {
      assert false;
    }
    hide IsStr;
    var text := StringAt(line, tok.value, NextTok(t.value).0);
    out := ToInt(Strtol(text));
    err := 0;
  }

  /** The characters up to the terminator. */
  method StringAt(line: array<char>, i: nat, ghost t: string) returns (s: string)
    requires IsStr(line[..], i, t)
    ensures s == t
  {
    var j := Scan(line, i, '\0', t);
    s := line[i..j];
  }

  /** !strncmp(dst, src, strlen(src)) */
  method StartsAt(line: array<char>, i: nat, src: string, ghost t: string) returns (yes: bool)
    requires IsStr(line[..], i, t) && '\0' !in src
    ensures yes <==> src <= t
  {
    hide IsStr;
    var j := 0;
    while j < |src|
      invariant j <= |src| && j <= |t| && src[..j] == t[..j]
    {
      StrAt(line[..], i, t, j);
      if line[i + j] != src[j] {
        return false;
      }
      j := j + 1;
    }
    yes := true;
  }

  /** FindString: where src first occurs, or -1. */
  method FindString(line: array<char>, start: nat, src: string, ghost t: string) returns (index: int)
    requires IsStr(line[..], start, t) && '\0' !in src
    ensures -1 <= index < |t|
    ensures index >= 0 ==> src <= t[index..]
    ensures forall k :: 0 <= k < (if index >= 0 then index else |t|) ==> !(src <= t[k..])
  {
    hide IsStr;
    index := 0;
    StrAt(line[..], start, t, 0);
    while line[start + index] != '\0'
      invariant 0 <= index <= |t| && start + index < line.Length
      invariant line[start + index] == '\0' <==> index == |t|
      invariant forall k :: 0 <= k < index ==> !(src <= t[k..])
      decreases |t| - index
    {
      StrTail(line[..], start, t, index);
      var found := StartsAt(line, start + index, src, t[index..]);
      if found {
        break;
      }
      index := index + 1;
      StrAt(line[..], start, t, index);
    }
    if line[start + index] == '\0' {
      index := -1;
    }
  }

  /** at_tok_start: the cursor goes behind the first colon. */
  method AtTokStart(line: array<char>, cur: nat, ghost t: string) returns (err: int, cur': nat)
    requires IsStr(line[..], cur, t)
    ensures err == if AfterColon(t).None? then -1 else 0
    ensures AfterColon(t).Some? ==> IsStr(line[..], cur', AfterColon(t).value)
    ensures AfterColon(t).None? ==> cur' == cur
  {
    hide IsStr;
    var ret := FindString(line, cur, ":", t);
    ghost var k := if ret < 0 then |t| else ret;
    forall j | 0 <= j < k
      ensures t[j] != ':'
    {
      assert t[j..][..1] == [t[j]];
    }
    SepFirst(t, ':', k);
    if ret < 0 {
      return -1, cur;
    }
    assert t[ret..][0] == t[ret];
    StrTail(line[..], cur, t, ret + 1);
    return 0, cur + ret + 1;
  }

  /** GSMHexToGSM */
  method GsmHexToGsm(sIn: string, out: array<bv8>) returns (used: nat)
    modifies out
    ensures used == UnhexCount(|sIn|, out.Length) && out[..used] == Unhex(sIn, used)
  {
    var i, o := 0, 0;
    while i < |sIn| - 1 && o < out.Length
      invariant i == 2 * o <= |sIn| && o <= out.Length
      invariant out[..o] == Unhex(sIn, o)
    {
      out[o] := SemiByteCharsToByte(sIn[i], sIn[i + 1]);
      assert out[..o + 1] == out[..o] + [out[o]];
      o := o + 1;
      i := i + 2;
    }
    used := o;
  }

  /** handle_ReportDownlinkData: the arguments of the payload callback. */
  method HandleDownlink(line: array<char>, ghost t: string) returns (report: Report)
    requires IsStr(line[..], 0, t)
    modifies line
    ensures report == Downlink(t)
  {
    hide IsStr, NextTok, NextInt;
    var err, start := AtTokStart(line, 0, t);
    if err < 0 {
      return Refused;
    }
    report := ReadFields(line, start, AfterColon(t).value);
  }

  method ReadFields(line: array<char>, start: nat, ghost t: string) returns (report: Report)
    requires IsStr(line[..], start, t)
    modifies line
    ensures report == Fields(t)
  {
    hide IsStr, NextTok, NextInt, AfterColon;
    ghost var r1 := NextInt(Some(t)).1;
    ghost var r2 := NextInt(r1).1;
    ghost var r3 := NextInt(r2).1;
    ghost var r4 := NextInt(r3).1;
    NoneIn();
    var err, kind, cur := ParseNextInt(line, Some(start), Some(t));
    var rrcState, priority, len;
    err, rrcState, cur := ParseNextInt(line, cur, r1);
    if err < 0 {
      return Refused;
    }
    err, priority, cur := ParseNextInt(line, cur, r2);
    if err < 0 {
      return Refused;
    }
    err, len, cur := ParseNextInt(line, cur, r3);
    if err < 0 {
      return Refused;
    }
    if cur.None? {
      return Unspecified;
    }
    var data := ReadPayload(line, cur.value, r4.value);
    report := Delivered(kind, rrcState, priority, len, data);
  }

  lemma NoneIn()
    ensures NextInt(None) == (None, None)
    ensures forall t :: NextInt(Some(t)).0.Some?
  {
  }

  method ReadPayload(line: array<char>, cur: nat, ghost t: string) returns (data: seq<bv8>)
    requires IsStr(line[..], cur, t)
    modifies line
    ensures var hex := NextTok(t).0; data == Unhex(hex, UnhexCount(|hex|, MaxMsgSize))
  {
    var tok, rest := GetCurrentTok(line, Some(cur), Some(t));
    var hex := StringAt(line, tok.value, NextTok(t).0);
    var pdu := new bv8[MaxMsgSize];
    var used := GsmHexToGsm(hex, pdu);
    data := pdu[..used];
  }

  // ------------------------------------------------------------------ printing

  const CommandSize := 16 * 1024

  /** sprintf at p: the text and a terminator; n characters. ok is false when they run out of
      the array. */
  method Sprintf(buf: array<char>, p: nat, text: string) returns (ok: bool, n: nat)
    requires p < buf.Length
    modifies buf
    ensures n == |text| && (ok <==> p + n < buf.Length)
    ensures ok ==> buf[..p + n] == old(buf[..p]) + text
  {
    n := |text|;
    ok := p + n < buf.Length;
    if ok {
      Put(buf, p, text + "\0");
      assert buf[p..p + n] == buf[p..p + n + 1][..n];
      assert buf[..p + n] == buf[..p] + buf[p..p + n];
    }
  }

  /** agps_c_plane_stack_network_ulreq: the command handed to the channel; none when its text
      runs out of the array. */
  method Uplink(otaType: int, rrcMsgType: int, isFinal: int, msg: seq<bv8>) returns (command: Option<string>)
    ensures command.Some? <==> UplinkLength(isFinal, otaType, rrcMsgType, |msg|) < 16384
    ensures command.Some? ==> command.value == UplinkPrefix + UplinkFields(isFinal, otaType, rrcMsgType, msg)
  {
    UplinkHasLength(isFinal, otaType, rrcMsgType, msg);
    UplinkIs(otaType, rrcMsgType, isFinal, msg);
    hide Decimal, Hex, UplinkFields, UplinkHead;
    var buf := new char[CommandSize];
    var ok, p := PrintHead(buf, otaType, rrcMsgType, isFinal, |msg|);
    if !ok {
      return None;
    }
    ok, p := PrintPayload(buf, p, msg);
    if !ok {
      return None;
    }
    var n;
    ok, n := Sprintf(buf, p, "\"");
    p := p + n;
    command := if ok then Some(buf[..p]) else None;
  }

  /** The largest message that the handler of the other direction takes overruns the command. */
  method UplinkOfLargest() returns (command: Option<string>)
    ensures command == None
  {
    UplinkRange(0, 0, 0, MaxMsgSize);
    command := Uplink(0, 0, 0, seq(MaxMsgSize, i => 0));
  }

  ghost function UplinkHead(otaType: int, rrcMsgType: int, isFinal: int, size: nat): string {
    UplinkPrefix + (Decimal(isFinal) + "," + Decimal(otaType) + "," + Decimal(rrcMsgType) + "," + Decimal(size)
        + ",") + "\""
  }

  lemma UplinkIs(otaType: int, rrcMsgType: int, isFinal: int, msg: seq<bv8>)
    ensures UplinkPrefix + UplinkFields(isFinal, otaType, rrcMsgType, msg)
            == UplinkHead(otaType, rrcMsgType, isFinal, |msg|) + Hex(msg) + "\""
  {
    Regroup(UplinkPrefix, Decimal(isFinal), Decimal(otaType), Decimal(rrcMsgType), Decimal(|msg|), Hex(msg), "\"");
    hide Decimal, Hex;
  }

  lemma Regroup(p: string, a: string, b: string, c: string, d: string, e: string, q: string)
    ensures p + (a + "," + (b + "," + (c + "," + (d + "," + (q + e + q)))))
            == p + (a + "," + b + "," + c + "," + d + ",") + q + e + q
  {
    var ab := a + "," + b;
    var abc := ab + "," + c;
    var r := q + e + q;
    Join(abc, d, r);
    Join(ab, c, d + "," + r);
    Join(a, b, c + "," + (d + "," + r));
    Last(p, abc + "," + d + ",", q, e);
  }

  lemma Join(x: string, y: string, r: string)
    ensures x + "," + y + "," + r == x + "," + (y + "," + r)
  {
  }

  lemma Last(p: string, x: string, q: string, e: string)
    ensures p + x + q + e + q == p + (x + (q + e + q))
  {
  }

  method PrintHead(buf: array<char>, otaType: int, rrcMsgType: int, isFinal: int, size: nat) returns (ok: bool, p: nat)
    requires 12 < buf.Length
    modifies buf
    ensures ok <==> |UplinkHead(otaType, rrcMsgType, isFinal, size)| < buf.Length
    ensures ok ==> p == |UplinkHead(otaType, rrcMsgType, isFinal, size)|
    ensures ok ==> buf[..p] == UplinkHead(otaType, rrcMsgType, isFinal, size)
  {
    hide Decimal;
    p := 0;
    var n;
    ok, n := Sprintf(buf, p, UplinkPrefix);
    p := p + n;
    ok, n := Sprintf(buf, p,
                     Decimal(isFinal) + "," + Decimal(otaType) + "," + Decimal(rrcMsgType) + "," + Decimal(size) + ",");
    p := p + n;
    if !ok {
      return;
    }
    ok, n := Sprintf(buf, p, "\"");
    p := p + n;
  }

  lemma HexNone()
    ensures Hex([]) == ""
  {
  }

  lemma HexNext(msg: seq<bv8>, k: nat)
    requires k < |msg|
    ensures msg[k] >> 4 < 16 && msg[k] & 15 < 16
    ensures Hex(msg[..k + 1]) == Hex(msg[..k]) + [HexDigit(msg[k] >> 4), HexDigit(msg[k] & 15)]
  {
    ByteFromDigits(msg[k]);
    assert msg[..k + 1][..k] == msg[..k];
  }

  /** The countdown over the payload. */
  method PrintPayload(buf: array<char>, start: nat, msg: seq<bv8>) returns (ok: bool, p: nat)
    requires start < buf.Length
    modifies buf
    ensures ok <==> start + 2 * |msg| < buf.Length
    ensures ok ==> p == start + 2 * |msg| && buf[..p] == old(buf[..start]) + Hex(msg)
  {
    hide Hex, HexDigit;
    ok, p := true, start;
    assert msg[..0] == [];
    HexNone();
    var size, k := |msg|, 0;
    while size != 0 && ok
      invariant 0 <= size <= |msg| && k == |msg| - size && p == start + 2 * k && (ok <==> p < buf.Length)
      invariant ok ==> buf[..p] == old(buf[..start]) + Hex(msg[..k])
    {
      HexNext(msg, k);
      var n;
      ok, n := Sprintf(buf, p, [HexDigit(msg[k] >> 4), HexDigit(msg[k] & 15)]);
      p := p + n;
      k := k + 1;
      size := size - 1;
    }
    if ok {
      assert msg[..k] == msg;
    }
  }
}
