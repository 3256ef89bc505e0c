/** The game clock: every second `startTimer`'s callback turns the milliseconds since the start
    into whole seconds and shows them as minutes and seconds, `MM:SS`. `Date.now` is outside the
    model: the two time stamps are inputs. */
module Clock {
  import opened Wrappers

  predicate IsDigit(c: char) {
    '0' <= c <= '9'
  }

  predicate IsDigits(s: string) {
    forall k :: 0 <= k < |s| ==> IsDigit(s[k])
  }

  function DigitChar(d: nat): (c: char)
    requires d < 10
    ensures IsDigit(c)
  {
    ('0' as int + d) as char
  }

  function DigitValue(c: char): (d: nat)
    requires IsDigit(c)
    ensures d < 10
  {
    c as int - '0' as int
  }

  /** The number a string of decimal digits denotes, most significant digit first. */
  function Value(s: string): nat
    requires IsDigits(s)
  {
    if s == [] then 0 else Value(s[..|s| - 1]) * 10 + DigitValue(s[|s| - 1])
  }

  /** The decimal numeral of `n`, without leading zeros: what `Number.prototype.toString` gives
      for a non-negative integer. */
  function Numeral(n: nat): (r: string)
    ensures |r| >= 1 && IsDigits(r)
    ensures |r| > 1 ==> r[0] != '0'
    decreases n
  {
    if n < 10 then [DigitChar(n)]
    else
      var front := Numeral(n / 10);
      assert front[0] != '0' by {
        if |front| == 1 {
          assert n / 10 > 0;
          assert Value(front) == 0 * 10 + DigitValue(front[0]) by { assert front[..0] == []; }
        }
      }
      front + [DigitChar(n % 10)]
  }

  /** Reading a numeral back gives the number. */
  lemma {:induction false} NumeralValue(n: nat)
    ensures Value(Numeral(n)) == n
    decreases n
  {
    if n >= 10 {
      NumeralValue(n / 10);
      var r := Numeral(n);
      assert r[..|r| - 1] == Numeral(n / 10);
    } else {
      assert Numeral(n)[..0] == [];
    }
  }

  /** A numeral has one digit below 10 and at most two below 100. */
  lemma NumeralLength(n: nat)
    ensures n < 10 ==> |Numeral(n)| == 1
    ensures n < 100 ==> |Numeral(n)| <= 2
  {
  }

  /** `Number.prototype.toString` on an integer: a minus sign before the numeral of a negative
      number. */
  function ToString(n: int): (r: string)
    ensures |r| >= 1
    ensures n >= 0 <==> IsDigits(r)
    ensures n < 0 ==> |r| >= 2 && r[0] == '-' && IsDigits(r[1..]) && Value(r[1..]) == -n
  {
    if n < 0 then
      var r := "-" + Numeral(-n);
      assert !IsDigit(r[0]);
      assert r[1..] == Numeral(-n);
      NumeralValue(-n);
      r
    else Numeral(n)
  }

  /** `s.padStart(len, fill)` for a one-character fill: `fill` repeated in front until the text
      is `len` long; a text already that long is left as it is. */
  function PadStart(s: string, len: nat, fill: char): (r: string)
    ensures |r| == if |s| >= len then |s| else len
    decreases len - |s|
  {
    if |s| >= len then s else PadStart([fill] + s, len, fill)
  }

  /** Padding only adds fill characters in front of the text. */
  lemma {:induction false} PadStartKeeps(s: string, len: nat, fill: char)
    ensures var r := PadStart(s, len, fill);
      r[|r| - |s|..] == s && forall k :: 0 <= k < |r| - |s| ==> r[k] == fill
    decreases len - |s|
  {
    if |s| < len {
      PadStartKeeps([fill] + s, len, fill);
      var r := PadStart(s, len, fill);
      assert r[|r| - |s| - 1..] == [fill] + s;
    }
  }

  /** A zero in front does not change a number. */
  lemma {:induction false} ValueLeadingZero(s: string)
    requires IsDigits(s)
    ensures IsDigits("0" + s) && Value("0" + s) == Value(s)
    decreases |s|
  {
    var t := "0" + s;
    if s == [] {
      assert t[..0] == [];
    } else {
      var front := s[..|s| - 1];
      assert t[..|t| - 1] == "0" + front;
      ValueLeadingZero(front);
    }
  }

  /** Padding digits with zeros keeps them digits and keeps their value. */
  lemma {:induction false} PadValue(s: string, len: nat)
    requires IsDigits(s)
    ensures IsDigits(PadStart(s, len, '0')) && Value(PadStart(s, len, '0')) == Value(s)
    decreases len - |s|
  {
    if |s| < len {
      ValueLeadingZero(s);
      PadValue("0" + s, len);
    }
  }

  /** `Math.floor((now - start) / 1000)`: whole seconds between two time stamps in
      milliseconds. Dividing by a positive number rounds down, as `Math.floor` does. */
  function ElapsedSeconds(startMs: int, nowMs: int): (r: int)
    ensures r * 1000 <= nowMs - startMs < r * 1000 + 1000
    ensures startMs <= nowMs ==> r >= 0
  {
    (nowMs - startMs) / 1000
  }

  /** JavaScript's `%`: the remainder takes the sign of the dividend. */
  function JsRemainder(a: int, b: int): (r: int)
    requires b > 0
    ensures a >= 0 ==> 0 <= r < b
    ensures a < 0 ==> -b < r <= 0
  {
    if a >= 0 then a % b else -((-a) % b)
  }

  /** The text the clock shows for `elapsed` seconds (TermFlip/js/app.js:163-166). */
  function FormatElapsed(elapsed: int): (r: string)
    ensures |r| >= 5
  {
    PadStart(ToString(elapsed / 60), 2, '0') + ":" + PadStart(ToString(JsRemainder(elapsed, 60)), 2, '0')
  }

  /** A count shown with at least two digits: digits only, the count's value, and exactly two
      characters below 100. */
  lemma PaddedCount(n: nat)
    ensures var p := PadStart(ToString(n), 2, '0');
      |p| >= 2 && IsDigits(p) && Value(p) == n && (n < 100 <==> |p| == 2)
  {
    PadValue(Numeral(n), 2);
    NumeralValue(n);
    NumeralLength(n);
    if n >= 100 {
      LongNumeral(n);
    }
  }

  /** The minutes and seconds of a non-negative count of seconds. */
  lemma MinutesSeconds(elapsed: int)
    requires elapsed >= 0
    ensures elapsed / 60 >= 0 && JsRemainder(elapsed, 60) == elapsed % 60 < 60
    ensures elapsed < 6000 <==> elapsed / 60 < 100
    ensures (elapsed / 60) * 60 + elapsed % 60 == elapsed
  {
  }

  /** Two runs of digits joined by a colon, the second two long, split back at the colon. */
  lemma ColonSplit(minutes: string, seconds: string)
    requires |minutes| >= 2 && |seconds| == 2 && IsDigits(minutes) && IsDigits(seconds)
    ensures var r := minutes + ":" + seconds;
      |r| == |minutes| + 3 && r[|r| - 3] == ':' &&
      r[..|r| - 3] == minutes && r[|r| - 2..] == seconds
  {
    var r := minutes + ":" + seconds;
    assert r[..|r| - 3] == minutes;
    assert r[|r| - 2..] == seconds;
  }

  /** For a clock that has not gone back: two digits of seconds below 60 after the colon, and
      at least two digits of minutes before it; exactly `MM:SS` below 100 minutes. */
  lemma FormatShape(elapsed: int)
    requires elapsed >= 0
    ensures var r := FormatElapsed(elapsed);
      |r| >= 5 && r[|r| - 3] == ':' &&
      IsDigits(r[..|r| - 3]) && IsDigits(r[|r| - 2..]) &&
      Value(r[..|r| - 3]) == elapsed / 60 &&
      Value(r[|r| - 2..]) == elapsed % 60 && elapsed % 60 < 60 &&
      (elapsed < 6000 <==> |r| == 5)
  {
    MinutesSeconds(elapsed);
    var m := elapsed / 60;
    var sec := elapsed % 60;
    PaddedCount(m);
    PaddedCount(sec);
    var minutes := PadStart(ToString(m), 2, '0');
    var seconds := PadStart(ToString(sec), 2, '0');
    ColonSplit(minutes, seconds);
    var r := minutes + ":" + seconds;
    assert FormatElapsed(elapsed) == r;
    assert r[..|r| - 3] == minutes && r[|r| - 2..] == seconds;
  }

  /** From 100 on, a numeral has at least three digits. */
  lemma {:induction false} LongNumeral(n: nat)
    requires n >= 100
    ensures |Numeral(n)| >= 3
    decreases n
  {
    assert n / 10 >= 10;
    var front := Numeral(n / 10);
    if n / 10 >= 100 {
      LongNumeral(n / 10);
    } else {
      assert |Numeral(n / 10 / 10)| >= 1;
      assert |front| >= 2;
    }
  }

  /** Reads a clock text back: the digits before the last-but-two character as minutes, the two
      after the colon as seconds. */
  function ReadClock(shown: string): (r: Option<nat>)
    ensures r.Some? ==> |shown| >= 4 && shown[|shown| - 3] == ':'
  {
    if |shown| >= 4 && shown[|shown| - 3] == ':' && IsDigits(shown[..|shown| - 3]) && IsDigits(shown[|shown| - 2..])
    then Some(Value(shown[..|shown| - 3]) * 60 + Value(shown[|shown| - 2..]))
    else None
  }

  /** The clock loses nothing: the shown text determines the elapsed seconds. */
  lemma ClockRoundTrip(elapsed: int)
    requires elapsed >= 0
    ensures ReadClock(FormatElapsed(elapsed)) == Some(elapsed)
  {
    FormatShape(elapsed);
    MinutesSeconds(elapsed);
  }

  /** A clock that went back shows the minus signs of both parts: five seconds before the
      start reads `-1:-5`. */
  lemma NegativeClock()
    ensures FormatElapsed(-5) == "-1:-5"
    ensures ReadClock(FormatElapsed(-5)) == None
  {
    assert -5 / 60 == -1;
    assert JsRemainder(-5, 60) == -5;
    assert Numeral(1) == "1" && Numeral(5) == "5";
  }
}
