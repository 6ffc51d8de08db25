/** The continuous-wave capture of libs/gnsspc/fft.c: four lines of five are kept, and every
    16384 kept samples are transformed. What a line holds, the window and the sine are
    parameters. */
module CwCapture {
  import opened BitReversal
  import opened ComplexNumbers
  import opened Fft
  import opened FourierTransform

  const NDataCount := 16384

  /** The sample in a line, the window, the sine and pi. */
  datatype Front = Front(sample: string -> Complex, window: nat -> real, sin: real -> real, pi: real)

  function Sample(front: Front, line: string): Complex {
    front.sample(line)
  }

  function Window(front: Front, t: nat): real {
    front.window(t)
  }

  function Windowed(front: Front, line: string, t: nat): Complex {
    var c, w := Sample(front, line), Window(front, t);
    Complex(c.re * w, c.im * w)
  }

  // ------------------------------------------------------------------ which lines count

  /** The lines kept: all but every fifth. */
  ghost function Kept(lines: seq<string>): seq<string> {
    if lines == [] then []
    else
      var before := Kept(lines[..|lines| - 1]);
      if |lines| % 5 != 0 then before + [lines[|lines| - 1]] else before
  }

  /** How many of n lines are kept. */
  function Count(n: nat): nat {
    n - n / 5
  }

  lemma {:induction false} KeptCount(lines: seq<string>)
    ensures |Kept(lines)| == Count(|lines|)
  {
    if lines != [] {
      KeptCount(lines[..|lines| - 1]);
    }
  }

  /** The n-th line completes a frame. */
  predicate Full(n: nat) {
    n % 5 != 0 && Count(n) % NDataCount == 0
  }

  /** The counter of the code after one more line. */
  lemma CountNext(n: nat)
    ensures var d := Count(n) % NDataCount + if (n + 1) % 5 != 0 then 1 else 0;
            && d <= Count(n + 1) && (d == NDataCount <==> Full(n + 1))
            && Count(n + 1) % NDataCount == if d == NDataCount then 0 else d
  {
    assert Count(n + 1) == Count(n) + if (n + 1) % 5 != 0 then 1 else 0;
    hide Count;
    var c := Count(n);
    assert c == c / NDataCount * NDataCount + c % NDataCount;
  }

  /** The last n of some lines with the window over them. */
  ghost function Last(front: Front, k: seq<string>, n: nat): (f: seq<Complex>)
    requires n <= |k|
    ensures |f| == n
  {
    seq(n, t requires 0 <= t < n => Windowed(front, k[|k| - n + t], t))
  }

  ghost function Frame(front: Front, lines: seq<string>, n: nat): (f: seq<Complex>)
    requires n <= |Kept(lines)|
    ensures |f| == n
  {
    Last(front, Kept(lines), n)
  }

  lemma LastNext(front: Front, k: seq<string>, line: string, n: nat)
    requires n <= |k|
    ensures Last(front, k + [line], n + 1) == Last(front, k, n) + [Windowed(front, line, n)]
  {
    hide Windowed;
    var f, g := Last(front, k + [line], n + 1), Last(front, k, n);
    forall t | 0 <= t < n
      ensures f[t] == g[t]
    {
    }
    assert f[n] == Windowed(front, line, n);
  }

  /** One more line: its sample comes last in the frame, if it is kept. */
  lemma FrameNext(front: Front, lines: seq<string>, line: string, n: nat)
    requires n <= |Kept(lines)|
    ensures var lines' := lines + [line];
            if |lines'| % 5 != 0
            then |Kept(lines')| == |Kept(lines)| + 1 && Frame(front, lines', n + 1)
                == Frame(front, lines, n) + [Windowed(front, line, n)]
            else |Kept(lines')| == |Kept(lines)| && Frame(front, lines', n) == Frame(front, lines, n)
  {
    hide Windowed, Last;
    assert (lines + [line])[..|lines|] == lines;
    LastNext(front, Kept(lines), line, n);
  }

  /** Kept line j is line j + j / 4. */
  lemma {:induction false} KeptIs(lines: seq<string>, j: nat)
    requires j < |Kept(lines)|
    ensures j + j / 4 < |lines| && Kept(lines)[j] == lines[j + j / 4]
  {
    var n := |lines| - 1;
    KeptCount(lines[..n]);
    if j < |Kept(lines[..n])| {
      KeptIs(lines[..n], j);
    } else {
      assert j == n - n / 5 && |lines| % 5 != 0;
    }
  }

  lemma SampleUnderWindow(front: Front, line: string, t: nat)
    ensures var c, w := front.sample(line), front.window(t);
            Windowed(front, line, t) == Complex(c.re * w, c.im * w)
  {
  }

  /** Point t of the last n of the lines - |lines| / 5 that are kept, from the line it was
      captured in. */
  lemma FramePoint(front: Front, lines: seq<string>, n: nat, t: nat)
    requires t < n <= |lines| - |lines| / 5
    ensures n <= |Kept(lines)|
    ensures var m := |lines| - |lines| / 5 - n + t;
            && m + m / 4 < |lines|
            && var c, w := front.sample(lines[m + m / 4]), front.window(t);
               Frame(front, lines, n)[t] == Complex(c.re * w, c.im * w)
  {
    hide Kept, Windowed;
    KeptCount(lines);
    var m := |Kept(lines)| - n + t;
    KeptIs(lines, m);
    assert Frame(front, lines, n)[t] == Windowed(front, lines[m + m / 4], t);
    SampleUnderWindow(front, lines[m + m / 4], t);
  }

  /** The array starts with these points. */
  ghost predicate Holds(d: seq<real>, x: seq<Complex>) {
    2 * |x| < |d| && forall t :: 0 <= t < |x| ==> d[2 * t + 1] == x[t].re && d[2 * t + 2] == x[t].im
  }

  lemma HoldsOneMore(d: seq<real>, d': seq<real>, x: seq<Complex>, c: Complex)
    requires Holds(d, x) && |d'| == |d| > 2 * |x| + 2
    requires d'[2 * |x| + 1] == c.re && d'[2 * |x| + 2] == c.im && forall i :: 0 <= i <= 2 * |x| ==> d'[i] == d[i]
    ensures Holds(d', x + [c])
  {
  }

  lemma HoldsAll(d: seq<real>, x: seq<Complex>)
    requires |x| == NDataCount && |d| == 2 * NDataCount + 1 && Holds(d, x)
    ensures Points(d, NDataCount) == x
  {
    forall t | 0 <= t < NDataCount
      ensures Points(d, NDataCount)[t] == x[t]
    {
    }
  }

  /** The array holds the transform of these points, with the root at minus 2 pi over their
      number, 16384. */
  ghost predicate IsTransform(front: Front, x: seq<Complex>, d: seq<real>)
    requires |x| == NDataCount && |d| == 2 * NDataCount + 1
  {
    Points(d, NDataCount) == DftAll(x, Turn(front.sin, Angle(front.pi, -1, NDataCount)))
  }

  /** That is: place by place, with the root written out. */
  lemma TransformMeans(front: Front, x: seq<Complex>, d: seq<real>) returns (w: Complex)
    requires |x| == 16384 && |d| == 32769
    ensures var theta := 2.0 * front.pi / -16384.0;
            w.re == 1.0 - 2.0 * front.sin(0.5 * theta) * front.sin(0.5 * theta) && w.im == front.sin(theta)
    ensures IsTransform(front, x, d)
            <==> forall k :: 0 <= k < 16384 ==> Complex(d[2 * k + 1], d[2 * k + 2]) == Dft(x, w, k)
  {
    assert (-1 * NDataCount) as real == -16384.0;
    w := LastRoot(front.sin, front.pi, -1, NDataCount);
    hide Dft, Turn, Angle, DftAll, Points;
    assert IsTransform(front, x, d) <==> Points(d, NDataCount) == DftAll(x, w);
    PointByPoint(x, d, w);
  }

  lemma PointByPoint(x: seq<Complex>, d: seq<real>, w: Complex)
    requires |x| == NDataCount && |d| == 2 * NDataCount + 1
    ensures Points(d, NDataCount) == DftAll(x, w)
            <==> forall k :: 0 <= k < NDataCount ==> Complex(d[2 * k + 1], d[2 * k + 2]) == Dft(x, w, k)
  {
    hide Dft;
    var p, f := Points(d, NDataCount), DftAll(x, w);
    assert forall k :: 0 <= k < NDataCount ==> p[k] == Complex(d[2 * k + 1], d[2 * k + 2]) && f[k] == Dft(x, w, k);
    if forall k :: 0 <= k < NDataCount ==> Complex(d[2 * k + 1], d[2 * k + 2]) == Dft(x, w, k) {
      assert p == f;
    }
  }

  lemma NoneHeld(d: seq<real>, front: Front, lines: seq<string>)
    requires d != []
    ensures Holds(d, Frame(front, lines, 0))
  {
  }

  lemma FrameSize()
    ensures Exp2(14) == NDataCount
  {
    assert Exp2(4) == 16;
    assert Exp2(8) == 256;
    assert Exp2(12) == 4096;
  }

  // ------------------------------------------------------------------ the marks

  /** memcmp at some place in front of the end; what lies behind it can be read too. */
  ghost predicate Marked(nmea: string, length: nat, mark: string) {
    exists i :: 0 <= i < length && i <= |nmea| && mark <= nmea[i..]
  }

  method Find(nmea: string, length: nat, mark: string) returns (found: bool)
    requires length <= |nmea|
    ensures found <==> exists i :: 0 <= i < length && mark <= nmea[i..]
  {
    var i := 0;
    while i < length
      invariant i <= length
      invariant forall k :: 0 <= k < i ==> !(mark <= nmea[k..])
    {
      if mark <= nmea[i..] {
        return true;
      }
      i := i + 1;
    }
    found := false;
  }

  const End := "DATA_CAPTURE_END"
  const Begin := "DATA_CAPTURE_BEGIN"

  /** The lines captured, when a capture is on. */
  datatype Session = Off | On(lines: seq<string>)

  /** What a call does to the session. A line that ends a capture can begin the next. */
  ghost function Next(s: Session, nmea: string, length: nat): Session {
    if s.On? && !Marked(nmea, length, End) then On(s.lines + [nmea])
    else if Marked(nmea, length, Begin) then On([])
    else Off
  }

  lemma MarkAt(nmea: string, mark: string, i: nat)
    requires i < |nmea| && mark <= nmea[i..]
    ensures nmea == nmea[..i] + mark + nmea[i..][|mark|..]
  {
  }

  /** A mark is somewhere in the line. */
  lemma MarkedMeans(nmea: string, mark: string)
    requires mark != ""
    ensures Marked(nmea, |nmea|, mark) <==> exists before, after :: nmea == before + mark + after
  {
    if Marked(nmea, |nmea|, mark) {
      var i :| 0 <= i < |nmea| && mark <= nmea[i..];
      MarkAt(nmea, mark, i);
    }
    if before, after :| nmea == before + mark + after {
      assert nmea[|before|..] == mark + after;
    }
  }

  /** The session after calls with whole lines. */
  ghost function After(s: Session, calls: seq<string>): Session {
    if calls == [] then s
    else
      var nmea := calls[|calls| - 1];
      Next(After(s, calls[..|calls| - 1]), nmea, |nmea|)
  }

  lemma AfterNone(s: Session)
    ensures After(s, []) == s
  {
  }

  lemma AfterNext(s: Session, calls: seq<string>, nmea: string)
    ensures After(s, calls + [nmea]) == Next(After(s, calls), nmea, |nmea|)
  {
    assert (calls + [nmea])[..|calls|] == calls;
  }

  /** What is captured starts with the line behind the one that begins the capture, and goes on
      to one that ends it. */
  lemma {:induction false} Captured(s: Session, begin: string, lines: seq<string>)
    requires s.Off? && Marked(begin, |begin|, "DATA_CAPTURE_BEGIN")
    requires forall i :: 0 <= i < |lines| ==> !Marked(lines[i], |lines[i]|, "DATA_CAPTURE_END")
    ensures After(s, [begin] + lines) == On(lines)
  {
    hide Marked, After;
    if lines == [] {
      AfterNone(s);
      AfterNext(s, [], begin);
      assert [begin] + lines == [begin] == [] + [begin];
    } else {
      var front, last := lines[..|lines| - 1], lines[|lines| - 1];
      Captured(s, begin, front);
      AfterNext(s, [begin] + front, last);
      assert front + [last] == lines && [begin] + lines == [begin] + front + [last];
    }
  }

  lemma CaptureEnds(lines: seq<string>, nmea: string)
    requires Marked(nmea, |nmea|, "DATA_CAPTURE_END")
    ensures Next(On(lines), nmea, |nmea|) == if Marked(nmea, |nmea|, "DATA_CAPTURE_BEGIN") then On([]) else Off
  {
  }

  /** The call completes a frame. */
  ghost predicate Completes(s: Session, nmea: string, length: nat) {
    && s.On? && !Marked(nmea, length, End)
    && Full(|s.lines| + 1)
  }

  lemma WindowedIs(front: Front, line: string, t: nat) returns (c: Complex)
    ensures c == Windowed(front, line, t)
    ensures c == Complex(Sample(front, line).re * Window(front, t), Sample(front, line).im * Window(front, t))
  {
    c := Windowed(front, line, t);
  }

  /** The transforms while the first n lines of a session come in. */
  ghost function Transforms(n: nat): nat {
    if n == 0 then 0
    else Transforms(n - 1) + if Full(n) then 1 else 0
  }

  /** One for every 16384 of the n - n / 5 kept lines. */
  lemma {:induction false} OneTransformPerFrame(n: nat)
    ensures Transforms(n) == (n - n / 5) / 16384
  {
    if n > 0 {
      OneTransformPerFrame(n - 1);
    }
  }

  // ------------------------------------------------------------------ the capture

  class Capture {
    const front: Front
    const arrIQData: array<real>
    const arrWinAdd: array<real>
    var flag: bool
    var dataCount: nat
    var lineCount: nat
    ghost var session: Session

    ghost predicate Valid()
      reads this, arrIQData
    {
      && arrIQData.Length == 2 * NDataCount + 1 && arrWinAdd.Length == NDataCount && arrIQData != arrWinAdd
      && match session
         case Off => !flag && lineCount == 0 && dataCount == 0
         case On(lines) =>
           && flag && lineCount == |lines| && dataCount == |Kept(lines)| % NDataCount
           && Holds(arrIQData[..], Frame(front, lines, |Kept(lines)| % NDataCount))
    }

    constructor (front: Front)
      ensures Valid() && session == Off && this.front == front && fresh(arrIQData) && fresh(arrWinAdd)
    {
      this.front := front;
      arrIQData := new real[2 * NDataCount + 1](i => 0.0);
      arrWinAdd := new real[NDataCount](i => 0.0);
      flag, dataCount, lineCount, session := false, 0, 0, Off;
    }

    /** Lines 322-347: one line saved. */
    method Save(nmea: string, ghost lines: seq<string>)
      requires arrIQData.Length == 2 * NDataCount + 1 && arrWinAdd.Length == NDataCount && arrIQData != arrWinAdd
      requires lineCount == |lines| && dataCount < NDataCount && dataCount <= |Kept(lines)|
      requires Holds(arrIQData[..], Frame(front, lines, dataCount))
      modifies this`lineCount, this`dataCount, arrIQData, arrWinAdd
      ensures lineCount == old(lineCount) + 1
      ensures dataCount == old(dataCount) + (if lineCount % 5 != 0 then 1 else 0) <= NDataCount
      ensures dataCount <= |Kept(lines + [nmea])|
      ensures Holds(arrIQData[..], Frame(front, lines + [nmea], dataCount))
    {
      FrameNext(front, lines, nmea, dataCount);
      hide Kept, Frame, Windowed, Sample, Window, Holds;
      lineCount := lineCount + 1;
      if lineCount % 5 != 0 {
        dataCount := dataCount + 1;
        StoreNext(nmea, dataCount - 1, Frame(front, lines, dataCount - 1));
      }
    }

    /** The next sample behind those of the frame. */
    method StoreNext(nmea: string, t: nat, ghost frame: seq<Complex>)
      requires arrIQData.Length == 2 * NDataCount + 1 && arrWinAdd.Length == NDataCount && arrIQData != arrWinAdd
      requires t == |frame| < NDataCount && Holds(arrIQData[..], frame)
      modifies arrIQData, arrWinAdd
      ensures Holds(arrIQData[..], frame + [Windowed(front, nmea, t)])
    {
      hide Windowed, Sample, Window, Holds;
      ghost var d := arrIQData[..];
      ghost var w := WindowedIs(front, nmea, t);
      Store(nmea, t);
      HoldsOneMore(d, arrIQData[..], frame, w);
    }

    /** Lines 337-346: the sample at its place, under the window. */
    method Store(nmea: string, t: nat)
      requires arrIQData.Length == 2 * NDataCount + 1 && arrWinAdd.Length == NDataCount && arrIQData != arrWinAdd
      requires t < NDataCount
      modifies arrIQData, arrWinAdd
      ensures var c, w := Sample(front, nmea), Window(front, t);
              arrIQData[2 * t + 1] == c.re * w && arrIQData[2 * t + 2] == c.im * w
      ensures forall i :: 0 <= i < arrIQData.Length && i != 2 * t + 1 && i != 2 * t + 2 ==>
        arrIQData[i] == old(arrIQData[i])
    {
      hide Sample, Window;
      var c := Sample(front, nmea);
      arrWinAdd[t] := Window(front, t);
      arrIQData[2 * t + 1] := c.re;
      arrIQData[2 * t + 2] := c.im;
      arrIQData[2 * t + 1] := arrIQData[2 * t + 1] * arrWinAdd[t];
      arrIQData[2 * t + 2] := arrIQData[2 * t + 2] * arrWinAdd[t];
    }

    /** Lines 349-364, without the report: a full frame is transformed. */
    method TransformIfFull(ghost lines: seq<string>) returns (transformed: bool)
      requires arrIQData.Length == 2 * NDataCount + 1 && dataCount <= NDataCount && dataCount <= |Kept(lines)|
      requires Holds(arrIQData[..], Frame(front, lines, dataCount)) && SineLaws(front.sin, front.pi)
      modifies this`dataCount, arrIQData
      ensures transformed <==> old(dataCount) == NDataCount
      ensures dataCount == if transformed then 0 else old(dataCount)
      ensures transformed ==>
        |Kept(lines)| >= NDataCount && IsTransform(front, Frame(front, lines, NDataCount), arrIQData[..])
      ensures !transformed ==> arrIQData[..] == old(arrIQData[..])
    {
      hide Kept, Windowed, SineLaws, Points, DftAll, Turn;
      transformed := dataCount == NDataCount;
      if transformed {
        dataCount := 0;
        FrameSize();
        HoldsAll(arrIQData[..], Frame(front, lines, NDataCount));
        ghost var w := FFT(arrIQData, NDataCount, -1, front.sin, front.pi, 14);
      }
    }

    /** cw_data_capture */
    method Take(nmea: string, length: nat) returns (transformed: bool)
      requires Valid() && length <= |nmea| && SineLaws(front.sin, front.pi)
      modifies this, arrIQData, arrWinAdd
      ensures Valid() && session == Next(old(session), nmea, length)
      ensures transformed <==> Completes(old(session), nmea, length)
      ensures transformed ==> |Kept(old(session).lines + [nmea])| >= NDataCount
      ensures transformed ==> IsTransform(front, Frame(front, old(session).lines + [nmea], NDataCount), arrIQData[..])
    {
      hide Kept, Frame, Windowed, SineLaws, IsTransform, Holds, Full;
      transformed := false;
      if flag {
        var ends := Find(nmea, length, End);
        if ends {
          flag, dataCount, lineCount, session := false, 0, 0, Off;
        }
      }
      if flag {
        transformed := Keep(nmea);
      }
      if !flag {
        var begins := Find(nmea, length, Begin);
        if begins {
          Clear();
        }
      }
    }

    /** Lines 319-365 of a call while a capture is on. */
    method Keep(nmea: string) returns (transformed: bool)
      requires Valid() && session.On? && SineLaws(front.sin, front.pi)
      modifies this`lineCount, this`dataCount, this`session, arrIQData, arrWinAdd
      ensures Valid() && session == On(old(session).lines + [nmea])
      ensures transformed <==> Full(|session.lines|)
      ensures transformed ==> |Kept(session.lines)| >= NDataCount
      ensures transformed ==> IsTransform(front, Frame(front, session.lines, NDataCount), arrIQData[..])
    {
      hide Kept, Frame, Windowed, SineLaws, IsTransform, Holds, Count, Full;
      KeptCount(session.lines);
      KeptCount(session.lines + [nmea]);
      CountNext(|session.lines|);
      Save(nmea, session.lines);
      session := On(session.lines + [nmea]);
      transformed := TransformIfFull(session.lines);
      NoneHeld(arrIQData[..], front, session.lines);
    }

    /** Lines 374-380: a capture begins. */
    method Clear()
      requires Valid() && session.Off?
      modifies this`flag, this`dataCount, this`lineCount, this`session, arrIQData, arrWinAdd
      ensures Valid() && session == On([])
    {
      flag, dataCount, lineCount, session := true, 0, 0, On([]);
      forall i | 0 <= i < arrIQData.Length {
        arrIQData[i] := 0.0;
      }
      forall i | 0 <= i < arrWinAdd.Length {
        arrWinAdd[i] := 0.0;
      }
    }
  }
}
