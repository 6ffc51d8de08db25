/** Fields of AT commands as text: what libs/aGPS/generic/sprd_agps_agent.c prints and what
    libs/aGPS/lib/parser.c reads, as functions on strings. */
module AtText {
  import opened Options

  // ------------------------------------------------------------------ numbers

  predicate IsDigit(c: char) {
    '0' <= c <= '9'
  }

  function Digit(d: nat): (c: char)
    requires d < 10
    ensures IsDigit(c) && c as int - 48 == d
  {
    (48 + d) as char
  }

  function Digits(n: nat): (s: string)
    ensures s != "" && forall i :: 0 <= i < |s| ==> IsDigit(s[i])
  {
    if n < 10 then [Digit(n)] else Digits(n / 10) + [Digit(n % 10)]
  }

  /** printf's %d. */
  function Decimal(n: int): (s: string)
    ensures s != "" && forall i :: 0 <= i < |s| ==> IsDigit(s[i]) || s[i] == '-'
  {
    if n < 0 then "-" + Digits(-n) else Digits(n)
  }

  predicate IsSpace(c: char) {
    c == ' ' || '\t' <= c <= '\r'
  }

  function SkipSpaces(s: string): (t: string)
    ensures |t| <= |s| && t == s[|s| - |t|..] && (t == "" || !IsSpace(t[0]))
    ensures forall i :: 0 <= i < |s| - |t| ==> IsSpace(s[i])
  {
    if s != "" && IsSpace(s[0]) then SkipSpaces(s[1..]) else s
  }

  /** The number that the digits at the start of s continue a with. */
  function Number(s: string, a: nat): nat {
    if s != "" && IsDigit(s[0]) then Number(s[1..], 10 * a + (s[0] as int - 48)) else a
  }

  const LongMax := 0x7FFF_FFFF_FFFF_FFFF

  /** strtol to the base ten, on 64-bit longs: what does not fit becomes the nearest bound. */
  function Strtol(s: string): (n: int)
    ensures -LongMax - 1 <= n <= LongMax
  {
    var t := SkipSpaces(s);
    if t != "" && t[0] == '-' then
      var a: int := Number(t[1..], 0); if a > LongMax + 1 then -LongMax - 1 else -a
    else
      var a: int := Number(if t != "" && t[0] == '+' then t[1..] else t, 0); if a > LongMax then LongMax else a
  }

  predicate FitsInt(n: int) {
    -0x8000_0000 <= n < 0x8000_0000
  }

  /** (int) of a long. */
  function ToInt(n: int): (i: int)
    ensures FitsInt(i) && (FitsInt(n) ==> i == n)
  {
    var m := n % 0x1_0000_0000;
    if m < 0x8000_0000 then m else m - 0x1_0000_0000
  }

  lemma {:induction false} NumberOfDigits(s: string, c: char, a: nat)
    requires IsDigit(c) && forall i :: 0 <= i < |s| ==> IsDigit(s[i])
    ensures Number(s + [c], a) == 10 * Number(s, a) + (c as int - 48)
  {
    if s == "" {
      assert [c][1..] == "";
    } else {
      assert (s + [c])[1..] == s[1..] + [c];
      NumberOfDigits(s[1..], c, 10 * a + (s[0] as int - 48));
    }
  }

  lemma {:induction false} ReadDigits(n: nat)
    ensures Number(Digits(n), 0) == n
  {
    if n < 10 {
      assert Digits(n)[1..] == "";
    } else {
      ReadDigits(n / 10);
      NumberOfDigits(Digits(n / 10), Digit(n % 10), 0);
    }
  }

  /** strtol reads back what printf wrote. */
  lemma ReadDecimal(n: int)
    requires FitsInt(n)
    ensures ToInt(Strtol(Decimal(n))) == n
  {
    var s := Decimal(n);
    assert SkipSpaces(s) == s;
    if n < 0 {
      assert s[1..] == Digits(-n);
      ReadDigits(-n);
    } else {
      ReadDigits(n);
    }
  }

  // ------------------------------------------------------------------ bytes

  function HexDigit(d: bv8): (c: char)
    requires d < 16
  {
    "0123456789abcdef"[d as int]
  }

  /** printf's %02x of every byte. */
  function Hex(m: seq<bv8>): (s: string)
    ensures |s| == 2 * |m|
  {
    if m == [] then "" else Hex(m[..|m| - 1]) + [HexDigit(m[|m| - 1] >> 4), HexDigit(m[|m| - 1] & 15)]
  }

  /** A digit's value; what is neither a digit nor a capital is taken for a small letter. */
  function Nibble(c: char): bv8 {
    if '0' <= c <= '9' then (c as int - 48) as bv8
    else if 'A' <= c <= 'F' then (10 + c as int - 65) as bv8
    else ((10 + c as int - 97) % 256) as bv8
  }

  /** SemiByteCharsToByte */
  function SemiByteCharsToByte(high: char, low: char): bv8 {
    (Nibble(high) << 4) | Nibble(low)
  }

  lemma NibbleOfDigit(d: bv8)
    requires d < 16
    ensures Nibble(HexDigit(d)) == d
    ensures HexDigit(d) != '"' && HexDigit(d) != '\0'
  {
    var i := d as int;
    assert d == i as bv8;
    if i < 8 {
      assert i == 0 || i == 1 || i == 2 || i == 3 || i == 4 || i == 5 || i == 6 || i == 7;
    } else {
      assert i == 8 || i == 9 || i == 10 || i == 11 || i == 12 || i == 13 || i == 14 || i == 15;
    }
  }

  lemma ByteFromDigits(b: bv8)
    ensures b >> 4 < 16 && b & 15 < 16
    ensures SemiByteCharsToByte(HexDigit(b >> 4), HexDigit(b & 15)) == b
  {
    NibbleOfDigit(b >> 4);
    NibbleOfDigit(b & 15);
    assert ((b >> 4) << 4) | (b & 15) == b;
  }

  /** The first n bytes that the pairs of s make. */
  function Unhex(s: string, n: nat): (m: seq<bv8>)
    requires 2 * n <= |s|
    ensures |m| == n
  {
    if n == 0 then [] else Unhex(s, n - 1) + [SemiByteCharsToByte(s[2 * n - 2], s[2 * n - 1])]
  }

  /** How many bytes GSMHexToGSM makes. */
  function UnhexCount(len: nat, room: nat): nat {
    if len / 2 <= room then len / 2 else room
  }

  lemma {:induction false} UnhexPrefix(s: string, t: string, n: nat)
    requires 2 * n <= |s|
    ensures Unhex(s + t, n) == Unhex(s, n)
  {
    if n > 0 {
      UnhexPrefix(s, t, n - 1);
    }
  }

  lemma {:induction false} HexPlain(m: seq<bv8>)
    ensures forall i :: 0 <= i < |Hex(m)| ==> Hex(m)[i] != '"' && Hex(m)[i] != '\0'
  {
    if m != [] {
      var b := m[|m| - 1];
      HexPlain(m[..|m| - 1]);
      NibbleOfDigit(b >> 4);
      NibbleOfDigit(b & 15);
    }
  }

  /** GSMHexToGSM reads back what was printed. */
  lemma {:induction false} ReadHex(m: seq<bv8>)
    ensures Unhex(Hex(m), |m|) == m
  {
    if m != [] {
      var front, b := m[..|m| - 1], m[|m| - 1];
      ReadHex(front);
      ReadHexLast(Hex(front), b, |front|);
      assert m == front + [b];
    }
  }

  lemma ReadHexLast(s: string, b: bv8, n: nat)
    requires |s| == 2 * n
    ensures Unhex(s + [HexDigit(b >> 4), HexDigit(b & 15)], n + 1) == Unhex(s, n) + [b]
  {
    UnhexPrefix(s, [HexDigit(b >> 4), HexDigit(b & 15)], n);
    ByteFromDigits(b);
    hide HexDigit, SemiByteCharsToByte;
  }

  // ------------------------------------------------------------------ fields

  /** strsep: the text up to the delimiter, and what is behind it. */
  function Sep(s: string, d: char): (r: (string, Option<string>))
    ensures match r.1
            case None => r.0 == s && d !in s
            case Some(rest) => s == r.0 + [d] + rest && d !in r.0
  {
    if s == "" then ("", None)
    else if s[0] == d then ("", Some(s[1..]))
    else var (t, rest) := Sep(s[1..], d); ([s[0]] + t, rest)
  }

  function SepRest(s: Option<string>, d: char): Option<string> {
    match s
    case None => None
    case Some(t) => Sep(t, d).1
  }

  /** get_current_tok: a field in quotes, or up to the next comma. */
  function NextTok(s: string): (r: (string, Option<string>))
    ensures r.1.Some? ==> |r.1.value| < |s|
  {
    var t := SkipSpaces(s);
    if t != "" && t[0] == '"' then
      var (tok, rest) := Sep(t[1..], '"');
      (tok, SepRest(rest, ','))
    else Sep(t, ',')
  }

  lemma {:induction false} SepAt(a: string, d: char, b: string)
    requires d !in a
    ensures Sep(a + [d] + b, d) == (a, Some(b))
  {
    if a == "" {
      assert ("" + [d] + b)[1..] == b;
    } else {
      assert (a + [d] + b)[1..] == a[1..] + [d] + b;
      SepAt(a[1..], d, b);
      assert (a + [d] + b)[0] == a[0] && a == [a[0]] + a[1..];
    }
  }

  lemma NextNumber(n: int, rest: string)
    ensures NextTok(Decimal(n) + "," + rest) == (Decimal(n), Some(rest))
  {
    var s := Decimal(n) + "," + rest;
    assert s[0] == Decimal(n)[0];
    assert SkipSpaces(s) == s;
    SepAt(Decimal(n), ',', rest);
  }

  lemma NextQuoted(a: string)
    requires '"' !in a
    ensures NextTok("\"" + a + "\"") == (a, None)
  {
    var s := "\"" + a + "\"";
    assert SkipSpaces(s) == s;
    assert s[1..] == a + ['"'] + "";
    SepAt(a, '"', "");
  }

  // ------------------------------------------------------------------ a downlink report

  /** parse_nextint: the number and the rest; the error when there is no field. */
  function NextInt(s: Option<string>): (Option<int>, Option<string>) {
    match s
    case None => (None, None)
    case Some(t) => var (tok, rest) := NextTok(t); (Some(ToInt(Strtol(tok))), rest)
  }

  /** What becomes of a report: refused, handed on with the numbers and the bytes, or nothing
      to take the bytes from. */
  datatype Report = Refused | Delivered(kind: int, rrcState: int, priority: int, len: int, data: seq<bv8>) | Unspecified

  const MaxMsgSize := 8192

  /** The fields of a report, from just behind the colon. */
  function Fields(s: string): Report {
    var (kind, r1) := NextInt(Some(s));
    var (rrcState, r2) := NextInt(r1);
    if rrcState.None? then Refused else
    var (priority, r3) := NextInt(r2);
    if priority.None? then Refused else
    var (len, r4) := NextInt(r3);
    if len.None? then Refused else
    match r4
    case None => Unspecified
    case Some(t) =>
      var hex := NextTok(t).0;
      Delivered(kind.value, rrcState.value, priority.value, len.value, Unhex(hex, UnhexCount(|hex|, MaxMsgSize)))
  }

  function AfterColon(s: string): Option<string> {
    Sep(s, ':').1
  }

  /** handle_ReportDownlinkData */
  function Downlink(s: string): Report {
    match AfterColon(s)
    case None => Refused
    case Some(t) => Fields(t)
  }

  // ------------------------------------------------------------------ how many fields

  /** The fields that can be taken from a text. */
  function FieldCount(t: string): nat
    decreases |t|
  {
    match NextTok(t).1
    case None => 1
    case Some(u) => 1 + FieldCount(u)
  }

  function RestCount(rest: Option<string>): nat {
    match rest
    case None => 0
    case Some(t) => FieldCount(t)
  }

  /** What becomes of a report, by the number of its fields: with four of them the length of a
      string that is not there is taken. */
  lemma DownlinkByFields(s: string)
    ensures var n := RestCount(AfterColon(s));
      && (Downlink(s).Refused? <==> n < 4)
      && (Downlink(s).Unspecified? <==> n == 4)
      && (Downlink(s).Delivered? <==> n > 4)
  {
    if AfterColon(s).Some? {
      var t := AfterColon(s).value;
      FieldCountNext(t);
      var r1 := NextTok(t).1;
      if r1.Some? {
        FieldCountNext(r1.value);
        var r2 := NextTok(r1.value).1;
        if r2.Some? {
          FieldCountNext(r2.value);
          var r3 := NextTok(r2.value).1;
          if r3.Some? {
            FieldCountNext(r3.value);
          }
        }
      }
    }
    hide NextTok, FieldCount, AfterColon, ToInt, Strtol, Unhex, UnhexCount;
  }

  lemma FieldCountNext(t: string)
    ensures FieldCount(t) == match NextTok(t).1 case None => 1 case Some(u) => 1 + FieldCount(u)
    ensures FieldCount(t) >= 1
  {
  }

  function Commas(t: string): nat {
    if t == "" then 0 else (if t[0] == ',' then 1 else 0) + Commas(t[1..])
  }

  /** Without quotes there is one field more than there are commas. */
  lemma {:induction false} PlainFields(t: string)
    requires '"' !in t
    ensures FieldCount(t) == 1 + Commas(t)
    decreases |t|
  {
    hide Commas;
    PlainTok(t);
    FieldCountNext(t);
    hide NextTok, FieldCount;
    match NextTok(t).1
    case None =>
    case Some(rest) => PlainFields(rest);
  }

  lemma PlainTok(t: string)
    requires '"' !in t
    ensures match NextTok(t).1
            case None => Commas(t) == 0
            case Some(rest) => '"' !in rest && Commas(t) == 1 + Commas(rest)
  {
    hide Commas, Sep, SkipSpaces;
    var u := SkipSpaces(t);
    CommasAfterSpaces(t);
    CommasBySep(u);
    assert '"' !in u by {
      assert u == t[|t| - |u|..];
    }
    match Sep(u, ',').1
    case None =>
    case Some(rest) => assert rest == u[|u| - |rest|..];
  }

  lemma {:induction false} CommasAfterSpaces(t: string)
    ensures Commas(SkipSpaces(t)) == Commas(t)
  {
    if t != "" && IsSpace(t[0]) {
      CommasAfterSpaces(t[1..]);
    }
  }

  lemma {:induction false} CommasBySep(t: string)
    ensures Commas(t) == match Sep(t, ',').1 case None => 0 case Some(rest) => 1 + Commas(rest)
  {
    if t != "" && t[0] != ',' {
      CommasBySep(t[1..]);
    }
  }

  /** A line with four numbers and no data. */
  lemma ReportWithoutData(prefix: string, kind: int, rrcState: int, priority: int, len: int)
    requires ':' !in prefix
    ensures var numbers := Decimal(kind) + "," + (Decimal(rrcState) + "," + (Decimal(priority) + "," + Decimal(len)));
            Downlink(prefix + ":" + numbers) == Unspecified
  {
    var s4 := Decimal(len);
    var s3 := Decimal(priority) + "," + s4;
    var s2 := Decimal(rrcState) + "," + s3;
    var s1 := Decimal(kind) + "," + s2;
    SepAt(prefix, ':', s1);
    DownlinkByFields(prefix + ":" + s1);
    NextNumber(kind, s2);
    NextNumber(rrcState, s3);
    NextNumber(priority, s4);
    LastNumber(len);
    FieldCountNext(s1);
    FieldCountNext(s2);
    FieldCountNext(s3);
    FieldCountNext(s4);
    hide NextTok, FieldCount, Decimal, Downlink, Sep;
  }

  lemma LastNumber(n: int)
    ensures NextTok(Decimal(n)).1 == None
  {
    hide Decimal, Sep;
    var s := Decimal(n);
    assert SkipSpaces(s) == s;
    if Sep(s, ',').1.Some? {
      assert s[|Sep(s, ',').0|] == ',';
      assert false;
    }
  }

  /** What the uplink function prints behind the equals sign. */
  function UplinkFields(isFinal: int, otaType: int, rrcMsgType: int, msg: seq<bv8>): string {
    Decimal(isFinal) + "," + (Decimal(otaType) + "," + (Decimal(rrcMsgType) + ","
                              + (Decimal(|msg|) + "," + ("\"" + Hex(msg) + "\""))))
  }

  const UplinkPrefix := "AT+SPAGPSUL="

  /** The command's length, by its numbers. */
  function UplinkLength(isFinal: int, otaType: int, rrcMsgType: int, size: nat): nat {
    |UplinkPrefix| + |Decimal(isFinal)| + |Decimal(otaType)| + |Decimal(rrcMsgType)| + |Decimal(size)| + 6 + 2 * size
  }

  lemma UplinkHasLength(isFinal: int, otaType: int, rrcMsgType: int, msg: seq<bv8>)
    ensures |UplinkPrefix + UplinkFields(isFinal, otaType, rrcMsgType, msg)|
            == UplinkLength(isFinal, otaType, rrcMsgType, |msg|)
  {
    hide Decimal, Hex;
  }

  lemma {:induction false} DigitsLength(n: nat, k: nat, limit: nat)
    requires 0 < k && limit == Exp10(k)
    ensures |Digits(n)| <= k <==> n < limit
  {
    if k == 1 {
      assert Exp10(1) == 10;
      if n >= 10 {
        assert |Digits(n / 10)| > 0;
      }
    } else {
      if n >= 10 {
        DigitsLength(n / 10, k - 1, Exp10(k - 1));
      } else {
        AtLeastTen(k);
      }
    }
  }

  function Exp10(k: nat): nat {
    if k == 0 then 1 else 10 * Exp10(k - 1)
  }

  lemma {:induction false} AtLeastTen(k: nat)
    requires k > 0
    ensures Exp10(k) >= 10
  {
    if k > 1 {
      AtLeastTen(k - 1);
    }
  }

  lemma DecimalLength(n: int)
    ensures FitsInt(n) ==> |Decimal(n)| <= 11
    ensures 1000 <= n < 10000 ==> |Decimal(n)| == 4
    ensures 0 <= n < 10000 ==> |Decimal(n)| <= 4
    ensures n >= 1000 ==> |Decimal(n)| >= 4
  {
    var m := if n < 0 then -n else n;
    assert Exp10(1) == 10 && Exp10(2) == 100 && Exp10(3) == 1000 && Exp10(4) == 10000;
    assert Exp10(7) == 10_000_000 && Exp10(10) == 10_000_000_000;
    DigitsLength(m, 3, 1000);
    DigitsLength(m, 4, 10000);
    DigitsLength(m, 10, 10_000_000_000);
    hide Digits, Exp10;
  }

  /** Any int and up to 8164 bytes fit 16384 characters; from 8180 bytes on nothing does, though
      a message may have 8192. */
  lemma UplinkRange(isFinal: int, otaType: int, rrcMsgType: int, size: nat)
    requires FitsInt(isFinal) && FitsInt(otaType) && FitsInt(rrcMsgType)
    ensures size <= 8164 ==> UplinkLength(isFinal, otaType, rrcMsgType, size) < 16384
    ensures size >= 8180 ==> UplinkLength(isFinal, otaType, rrcMsgType, size) >= 16384
  {
    DecimalLength(isFinal);
    DecimalLength(otaType);
    DecimalLength(rrcMsgType);
    DecimalLength(size);
    hide Decimal;
  }

  /** Printed fields are read back: the same three numbers, the length, and the same bytes. */
  lemma FieldsReadBack(isFinal: int, otaType: int, rrcMsgType: int, msg: seq<bv8>)
    requires FitsInt(isFinal) && FitsInt(otaType) && FitsInt(rrcMsgType) && |msg| <= MaxMsgSize
    ensures Fields(UplinkFields(isFinal, otaType, rrcMsgType, msg))
        == Delivered(isFinal, otaType, rrcMsgType, |msg|, msg)
  {
    var quoted := "\"" + Hex(msg) + "\"";
    var s4 := Decimal(|msg|) + "," + quoted;
    var s3 := Decimal(rrcMsgType) + "," + s4;
    var s2 := Decimal(otaType) + "," + s3;
    var s1 := Decimal(isFinal) + "," + s2;
    IntReadBack(isFinal, s2);
    IntReadBack(otaType, s3);
    IntReadBack(rrcMsgType, s4);
    IntReadBack(|msg|, quoted);
    PayloadReadsBack(msg);
    hide NextInt, NextTok, Decimal, Hex, Unhex, UnhexCount;
    assert UplinkFields(isFinal, otaType, rrcMsgType, msg) == s1;
  }

  lemma IntReadBack(n: int, rest: string)
    requires FitsInt(n)
    ensures NextInt(Some(Decimal(n) + "," + rest)) == (Some(n), Some(rest))
  {
    NextNumber(n, rest);
    ReadDecimal(n);
    hide NextTok, ToInt, Strtol, Decimal;
  }

  lemma PayloadReadsBack(msg: seq<bv8>)
    requires |msg| <= MaxMsgSize
    ensures var hex := NextTok("\"" + Hex(msg) + "\"").0; Unhex(hex, UnhexCount(|hex|, MaxMsgSize)) == msg
  {
    HexPlain(msg);
    NextQuoted(Hex(msg));
    ReadHex(msg);
  }

  /** The same fields arriving in a report. */
  lemma DownlinkOfUplink(prefix: string, isFinal: int, otaType: int, rrcMsgType: int, msg: seq<bv8>)
    requires ':' !in prefix
    requires FitsInt(isFinal) && FitsInt(otaType) && FitsInt(rrcMsgType) && |msg| <= MaxMsgSize
    ensures Downlink(prefix + ":" + UplinkFields(isFinal, otaType, rrcMsgType, msg))
            == Delivered(isFinal, otaType, rrcMsgType, |msg|, msg)
  {
    SepAt(prefix, ':', UplinkFields(isFinal, otaType, rrcMsgType, msg));
    FieldsReadBack(isFinal, otaType, rrcMsgType, msg);
    hide Fields, UplinkFields;
  }
}
