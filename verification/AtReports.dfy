/** Reports as the other side may write them: spaces in front of fields, and capital digits. */
module AtReports {
  import opened AtText
  import opened Options

  predicate AllSpaces(s: string) {
    forall i :: 0 <= i < |s| ==> s[i] == ' ' || '\t' <= s[i] <= '\r'
  }

  lemma OneSpace(c: char, s: string)
    requires c == ' ' || '\t' <= c <= '\r'
    ensures SkipSpaces([c] + s) == SkipSpaces(s)
  {
    assert ([c] + s)[1..] == s;
  }

  lemma {:induction false} ManySpaces(gap: string, s: string)
    requires AllSpaces(gap)
    ensures SkipSpaces(gap + s) == SkipSpaces(s)
  {
    hide SkipSpaces;
    if gap == "" {
      assert gap + s == s;
    } else {
      ManySpaces(gap[1..], s);
      OneSpace(gap[0], gap[1..] + s);
      assert gap + s == [gap[0]] + (gap[1..] + s);
    }
  }

  /** Spaces in front of a field change nothing. */
  lemma LeadingSpaces(gap: string, s: string)
    requires forall i :: 0 <= i < |gap| ==> gap[i] == ' ' || '\t' <= gap[i] <= '\r'
    ensures NextTok(gap + s) == NextTok(s)
  {
    hide SkipSpaces, Sep;
    ManySpaces(gap, s);
  }

  lemma SpacedNumber(gap: string, n: int, rest: string)
    requires AllSpaces(gap) && FitsInt(n)
    ensures NextInt(Some(gap + (Decimal(n) + "," + rest))) == (Some(n), Some(rest))
  {
    LeadingSpaces(gap, Decimal(n) + "," + rest);
    IntReadBack(n, rest);
    hide NextTok, ToInt, Strtol, Decimal;
  }

  lemma SpacedPayload(gap: string, hex: string)
    requires AllSpaces(gap) && '"' !in hex
    ensures NextTok(gap + ("\"" + hex + "\"")).0 == hex
  {
    LeadingSpaces(gap, "\"" + hex + "\"");
    NextQuoted(hex);
  }

  /** Four numbers and the digits of the data, with any spaces in front of each. */
  function Spaced(g: seq<string>, kind: int, rrcState: int, priority: int, len: int, hex: string): string
    requires |g| == 5
  {
    g[0] + (Decimal(kind) + "," + (g[1] + (Decimal(rrcState) + "," + (g[2] + (Decimal(priority) + ","
      + (g[3] + (Decimal(len) + "," + (g[4] + ("\"" + hex + "\"")))))))))
  }

  lemma SpacedReport(prefix: string, g: seq<string>, kind: int, rrcState: int, priority: int, len: int, hex: string)
    requires ':' !in prefix && |g| == 5 && forall i :: 0 <= i < 5 ==> AllSpaces(g[i])
    requires FitsInt(kind) && FitsInt(rrcState) && FitsInt(priority) && FitsInt(len) && '"' !in hex
    ensures Downlink(prefix + ":" + Spaced(g, kind, rrcState, priority, len, hex))
         == Delivered(kind, rrcState, priority, len, Unhex(hex, UnhexCount(|hex|, 8192)))
  {
    var s4 := g[4] + ("\"" + hex + "\"");
    var s3 := g[3] + (Decimal(len) + "," + s4);
    var s2 := g[2] + (Decimal(priority) + "," + s3);
    var s1 := g[1] + (Decimal(rrcState) + "," + s2);
    SepAt(prefix, ':', Spaced(g, kind, rrcState, priority, len, hex));
    SpacedNumber(g[0], kind, s1);
    SpacedNumber(g[1], rrcState, s2);
    SpacedNumber(g[2], priority, s3);
    SpacedNumber(g[3], len, s4);
    SpacedPayload(g[4], hex);
    hide NextInt, NextTok, Decimal, Unhex, UnhexCount, Sep;
  }

  /** Capital digits are worth what small ones are. */
  lemma LetterDigits()
    ensures Nibble('A') == Nibble('a') == 10 && Nibble('B') == Nibble('b') == 11
    ensures Nibble('C') == Nibble('c') == 12 && Nibble('D') == Nibble('d') == 13
    ensures Nibble('E') == Nibble('e') == 14 && Nibble('F') == Nibble('f') == 15
  {
  }

  /** b is a, perhaps as a capital. */
  predicate SameDigit(a: char, b: char) {
    || b == a || (a == 'a' && b == 'A') || (a == 'b' && b == 'B') || (a == 'c' && b == 'C')
    || (a == 'd' && b == 'D') || (a == 'e' && b == 'E') || (a == 'f' && b == 'F')
  }

  lemma SameDigits(a: char, b: char)
    requires SameDigit(a, b)
    ensures Nibble(a) == Nibble(b)
  {
    LetterDigits();
    hide Nibble;
  }

  lemma {:induction false} CapitalsAlike(s: string, t: string, n: nat)
    requires |s| == |t| && 2 * n <= |s| && forall i :: 0 <= i < |s| ==> SameDigit(s[i], t[i])
    ensures Unhex(t, n) == Unhex(s, n)
  {
    hide SameDigit, Nibble;
    if n > 0 {
      CapitalsAlike(s, t, n - 1);
      SameDigits(s[2 * n - 2], t[2 * n - 2]);
      SameDigits(s[2 * n - 1], t[2 * n - 1]);
    }
  }

  lemma SampleText()
    ensures "+SPAGPSDL" + ":" + Spaced([" ", " ", " ", " ", " "], 1, 0, 2, 3, "AB0f40")
         == "+SPAGPSDL: 1, 0, 2, 3, \"AB0f40\""
  {
    hide Decimal;
    SampleNumbers();
  }

  lemma SampleData()
    ensures Unhex("AB0f40", UnhexCount(6, 8192)) == [0xAB, 0x0F, 0x40]
  {
    SampleByte1();
    SampleByte2();
    SampleByte3();
    hide SemiByteCharsToByte;
    assert Unhex("AB0f40", 1) == [0xAB];
    assert Unhex("AB0f40", 2) == [0xAB, 0x0F];
  }

  lemma SampleByte1()
    ensures SemiByteCharsToByte('A', 'B') == 0xAB
  {
  }

  lemma SampleByte2()
    ensures SemiByteCharsToByte('0', 'f') == 0x0F
  {
  }

  lemma SampleByte3()
    ensures SemiByteCharsToByte('4', '0') == 0x40
  {
  }

  /** A line in the form that the agent expects. */
  lemma SampleReport()
    ensures Downlink("+SPAGPSDL: 1, 0, 2, 3, \"AB0f40\"") == Delivered(1, 0, 2, 3, [0xAB, 0x0F, 0x40])
  {
    var g := [" ", " ", " ", " ", " "];
    assert AllSpaces(" ");
    SpacedReport("+SPAGPSDL", g, 1, 0, 2, 3, "AB0f40");
    SampleText();
    SampleData();
    hide Downlink, Spaced, Unhex, UnhexCount, AllSpaces;
  }

  /** A command as it is printed. */
  lemma SampleCommand()
    ensures UplinkPrefix + UplinkFields(1, 0, 3, [0xAB, 0x0F]) == "AT+SPAGPSUL=1,0,3,2,\"ab0f\""
  {
    hide Decimal, Hex;
    SampleNumbers();
    SampleHex();
  }

  lemma SampleNumbers()
    ensures Decimal(0) == "0" && Decimal(1) == "1" && Decimal(2) == "2" && Decimal(3) == "3"
    ensures Decimal(20) == "20" && Decimal(-3) == "-3"
  {
    assert Decimal(20) == Digits(2) + ['0'];
  }

  lemma SampleHex()
    ensures Hex([0xAB, 0x0F]) == "ab0f"
  {
    assert [0xAB as bv8, 0x0F][..1] == [0xAB];
    assert Hex([0xAB]) == "ab";
  }
}
