/** The text of the status bar, built from the session as `draw` builds it, with JavaScript's
    number formatting and remainder written out. */
module Display {
  import opened Statuses
  import Sessions

  predicate IsDigit(c: char) {
    '0' <= c <= '9'
  }

  predicate AllDigits(s: string) {
    forall i :: 0 <= i < |s| ==> IsDigit(s[i])
  }

  function DigitChar(d: nat): (c: char)
    requires d < 10
    ensures IsDigit(c)
  {
    (('0' as int) + d) as char
  }

  function DigitValue(c: char): nat
    requires IsDigit(c)
  {
    c as int - '0' as int
  }

  /** The decimal digits of `n`, without leading zeros. */
  function Digits(n: nat): (s: string)
    ensures |s| >= 1 && AllDigits(s)
    ensures s[0] == '0' <==> n == 0
    ensures n >= 10 <==> |s| >= 2
    decreases n
  {
    if n < 10 then [DigitChar(n)] else Digits(n / 10) + [DigitChar(n % 10)]
  }

  /** The number a string of digits denotes; leading zeros are allowed. */
  function ParseDigits(s: string): nat
    requires AllDigits(s)
    decreases |s|
  {
    if s == [] then 0 else 10 * ParseDigits(s[..|s| - 1]) + DigitValue(s[|s| - 1])
  }

  lemma {:induction false} DigitsRoundTrip(n: nat)
    ensures ParseDigits(Digits(n)) == n
    decreases n
  {
    if n >= 10 {
      DigitsRoundTrip(n / 10);
      var s := Digits(n);
      assert s[..|s| - 1] == Digits(n / 10);
    }
  }

  lemma {:induction false} LeadingZero(s: string)
    requires AllDigits(s)
    ensures AllDigits("0" + s) && ParseDigits("0" + s) == ParseDigits(s)
    decreases |s|
  {
    if s != [] {
      var z := "0" + s;
      assert z[..|z| - 1] == "0" + s[..|s| - 1];
      LeadingZero(s[..|s| - 1]);
    }
  }

  /** JavaScript's `String(n)` for an integral number below 1e21 in magnitude (larger ones are
      written in exponent form, which is not modelled): a '-' exactly for a negative number,
      then the decimal digits of its magnitude, which read back as that magnitude. */
  function NumberText(n: int): (r: string)
    ensures |r| >= 1 && (r[0] == '-' <==> n < 0)
    ensures n >= 0 ==> AllDigits(r) && ParseDigits(r) == n
    ensures n < 0 ==> |r| >= 2 && AllDigits(r[1..]) && ParseDigits(r[1..]) == -n
  {
    if n < 0 then
      DigitsRoundTrip(-n);
      var r := "-" + Digits(-n);
      assert r[1..] == Digits(-n);
      r
    else
      DigitsRoundTrip(n);
      Digits(n)
  }

  /** JavaScript's `t % 60`: the remainder takes the sign of the dividend. */
  function SecondsOf(t: int): (r: int)
    ensures -60 < r < 60 && (t - r) % 60 == 0
    ensures t >= 0 ==> r == t % 60
    ensures t < 0 ==> r <= 0
  {
    if t >= 0 then t % 60 else -((-t) % 60)
  }

  /** A number with a "0" in front when it is below 10. */
  function Padded(n: int): (r: string)
    ensures |r| >= 2 && IsDigit(r[0])
    ensures n >= 0 ==> AllDigits(r)
    ensures 0 <= n < 100 ==> |r| == 2
  {
    (if n < 10 then "0" else "") + NumberText(n)
  }

  /** The `MM:SS` part for `t` seconds: seconds are `t % 60`, minutes `(t - seconds) / 60`. For
      `t >= 0` it is at least two digits of minutes, a ':' and exactly two digits of seconds. */
  function ClockText(t: int): (r: string)
    ensures |r| >= 5 && IsDigit(r[0])
    ensures t >= 0 ==> r[|r| - 3] == ':'
    ensures t >= 0 ==> AllDigits(r[..|r| - 3]) && AllDigits(r[|r| - 2..])
  {
    var seconds := SecondsOf(t);
    var minutes := (t - seconds) / 60;
    Padded(minutes) + ":" + Padded(seconds)
  }

  /** `currentState`: " - work", " - rest", " - paused", " - break", or nothing. */
  function StateSuffix(status: Status): (r: string)
    ensures r == "" <==> status == None || status == Done
  {
    match status
    case Work => " - work"
    case Rest => " - rest"
    case Paused => " - paused"
    case Break => " - break"
    case _ => ""
  }

  /** " (i out of N pomodori)", counting from 1, when the session has more than one pomodoro. */
  function ProgressSuffix(index: nat, count: nat): (r: string)
    ensures r == "" <==> count <= 1
  {
    if count > 1 then
      " (" + NumberText(index + 1) + " out of " + NumberText(count) + " pomodori)"
    else
      ""
  }

  /** The status-bar text `draw` writes: "Restart session?" exactly when the session is finished,
      since otherwise the text begins with the clock's digit. */
  function StatusBarText(s: Sessions.Session): (r: string)
    ensures r == "Restart session?" <==> Sessions.Finished(s)
  {
    if Sessions.Finished(s) then
      "Restart session?"
    else
      var p := Sessions.Current(s);
      var text := ClockText(p.currentTime) + StateSuffix(p.status) + ProgressSuffix(s.index, |s.pomodori|);
      assert text[0] == ClockText(p.currentTime)[0] != "Restart session?"[0];
      text
  }

  /** `draw` asks for a longer break when it finds a session of several pomodori finished: only
      together with the restart text, and never for a single pomodoro. */
  predicate LongerBreakNotice(s: Sessions.Session): (b: bool)
    ensures b <==> StatusBarText(s) == "Restart session?" && |s.pomodori| > 1
  {
    Sessions.Finished(s) && |s.pomodori| > 1
  }

  /** A clock read back from text: minutes and seconds, or Malformed. */
  datatype Clock = Malformed | Clock(minutes: nat, seconds: nat)

  /** The index of the first ':' of `s`, or `|s|` if there is none. */
  function ColonAt(s: string): (k: nat)
    ensures k <= |s| && (k < |s| ==> s[k] == ':')
    ensures forall i :: 0 <= i < k ==> s[i] != ':'
    decreases |s|
  {
    if s == [] || s[0] == ':' then 0 else 1 + ColonAt(s[1..])
  }

  /** Reads `MM:SS` back: two non-empty digit strings around the first ':'. */
  function ParseClock(s: string): Clock {
    var k := ColonAt(s);
    if k == |s| then Malformed
    else
      var mm, ss := s[..k], s[k + 1..];
      if mm != [] && ss != [] && AllDigits(mm) && AllDigits(ss) then
        Clock(ParseDigits(mm), ParseDigits(ss))
      else
        Malformed
  }

  lemma {:induction false} PaddedDigits(n: nat)
    ensures AllDigits(Padded(n)) && |Padded(n)| >= 2 && ParseDigits(Padded(n)) == n
  {
    DigitsRoundTrip(n);
    if n < 10 {
      assert Padded(n) == "0" + Digits(n);
      LeadingZero(Digits(n));
    } else {
      assert Padded(n) == Digits(n);
    }
  }

  /** Two digit strings joined by ':' read back as themselves. */
  lemma ParseJoined(mm: string, ss: string)
    requires mm != [] && ss != [] && AllDigits(mm) && AllDigits(ss)
    ensures ParseClock(mm + ":" + ss) == Clock(ParseDigits(mm), ParseDigits(ss))
  {
    var text := mm + ":" + ss;
    forall i | 0 <= i < |mm| ensures text[i] != ':' {
      assert text[i] == mm[i];
    }
    assert text[|mm|] == ':';
    assert text[..|mm|] == mm && text[|mm| + 1..] == ss;
  }

  /** For a non-negative time the text shows `t / 60` minutes and `t % 60` seconds, and reading
      it back gives them again. */
  lemma ClockRoundTrip(t: int)
    requires t >= 0
    ensures ParseClock(ClockText(t)) == Clock(t / 60, t % 60)
  {
    assert ClockText(t) == Padded(t / 60) + ":" + Padded(t % 60);
    PaddedDigits(t / 60);
    PaddedDigits(t % 60);
    ParseJoined(Padded(t / 60), Padded(t % 60));
  }

  /** While a session runs, the status bar begins with a clock that reads back as the current
      pomodoro's minutes and seconds, followed by the state and progress suffixes. */
  lemma StatusBarShowsClock(s: Sessions.Session)
    requires !Sessions.Finished(s) && Sessions.Current(s).currentTime >= 0
    ensures var p := Sessions.Current(s);
            var text, k := StatusBarText(s), |ClockText(p.currentTime)|;
            && k <= |text|
            && ParseClock(text[..k]) == Clock(p.currentTime / 60, p.currentTime % 60)
            && text[k..] == StateSuffix(p.status) + ProgressSuffix(s.index, |s.pomodori|)
  {
    var p := Sessions.Current(s);
    var clock := ClockText(p.currentTime);
    var text := StatusBarText(s);
    assert text == clock + (StateSuffix(p.status) + ProgressSuffix(s.index, |s.pomodori|));
    assert text[..|clock|] == clock;
    ClockRoundTrip(p.currentTime);
  }

  /** Below 100 minutes the clock is exactly five characters, `MM:SS`. */
  lemma ClockShape(t: int)
    requires 0 <= t < 6000
    ensures |ClockText(t)| == 5 && ClockText(t)[2] == ':'
  {
  }

  lemma ClockExamples()
    ensures ClockText(125) == "02:05"
    ensures ClockText(9) == "00:09"
  {
  }
}
