/** The countdown timer of the writing session: a number of seconds left,
    shown as "m:ss", adjusted in steps of two minutes with the scroll wheel
    and decremented once a second while it runs. */
module Timer {
  import opened Text

  /** The time the timer starts with and returns to on a double click. */
  const DefaultTime: int := 900
  /** The largest time the scroll wheel can set. */
  const MaxTime: int := 2700

  /** Swift's integer division, which truncates toward zero. */
  function Quot(a: int, b: int): (q: int)
    requires b > 0
    ensures a >= 0 ==> 0 <= a - q * b < b
    ensures a < 0 ==> -b < a - q * b <= 0
  {
    if a >= 0 then a / b else -((-a) / b)
  }

  /** Swift's `%`, whose result takes the sign of the dividend. */
  function Rem(a: int, b: int): (r: int)
    requires b > 0
    ensures a == Quot(a, b) * b + r
    ensures a >= 0 ==> 0 <= r < b
    ensures a < 0 ==> -b < r <= 0
  {
    a - Quot(a, b) * b
  }

  function Min(a: int, b: int): int { if a <= b then a else b }
  function Max(a: int, b: int): int { if a >= b then a else b }

  /** One notch of the scroll wheel over the timer: move two minutes up or
      down, round the minutes to an even number, clamp to [0, 2700].
      `increase` is whether the wheel's delta is negative: scrolling with a
      negative delta raises the time. */
  function ScrollAdjust(t: int, increase: bool): int {
    var currentMinutes := Quot(t, 60);
    var direction := if increase then 2 else -2;
    var newMinutes := currentMinutes + direction;
    var roundedMinutes := Quot(newMinutes, 2) * 2;
    var newTime := roundedMinutes * 60;
    Min(Max(newTime, 0), MaxTime)
  }

  /** The same computation with Dafny's Euclidean division in place of
      Swift's truncating one. */
  function ScrollAdjustEuclidean(t: int, increase: bool): int {
    var newMinutes := t / 60 + (if increase then 2 else -2);
    Min(Max(newMinutes / 2 * 2 * 60, 0), MaxTime)
  }

  /** The scroll wheel always leaves a time in [0, 2700] that is a whole
      number of two-minute steps or exactly the maximum. */
  lemma ScrollAdjustRange(t: int, increase: bool)
    ensures var r := ScrollAdjust(t, increase);
      0 <= r <= MaxTime && (r % 120 == 0 || r == MaxTime)
  {
    var m := Quot(Quot(t, 60) + (if increase then 2 else -2), 2);
    assert m * 2 * 60 == m * 120;
  }

  /** Scrolling up never lowers the time and raises it unless it is already
      the maximum; scrolling down never raises it and lowers it unless it is
      already zero. */
  lemma ScrollAdjustDirection(t: int, increase: bool)
    requires 0 <= t <= MaxTime
    ensures var r := ScrollAdjust(t, increase);
      if increase then r >= t && (t < MaxTime ==> r > t)
      else r <= t && (t > 0 ==> r < t)
  {
    var c := Quot(t, 60);
    assert c * 60 <= t < c * 60 + 60;
    var n := c + (if increase then 2 else -2);
    var m := Quot(n, 2) * 2;
    if increase {
      assert m >= c + 1;
      assert m * 60 >= c * 60 + 60;
    } else if c >= 1 {
      assert m <= c - 1;
      assert m * 60 <= c * 60 - 60;
    }
  }

  /** For the times the timer can hold (never negative) the two divisions
      give the same scroll result: the clamp at zero absorbs the only
      difference, at -1 minute. */
  lemma ScrollDivisionAgrees(t: int, increase: bool)
    requires t >= 0
    ensures ScrollAdjust(t, increase) == ScrollAdjustEuclidean(t, increase)
  {
    var n := t / 60 + (if increase then 2 else -2);
    assert Quot(t, 60) == t / 60;
    if n >= 0 {
      assert Quot(n, 2) == n / 2;
    } else {
      assert n == -1 || n == -2;
    }
  }

  /** For a negative time the two divisions would disagree. */
  lemma ScrollDivisionDiffersWhenNegative()
    ensures ScrollAdjust(-30, true) == 120 && ScrollAdjustEuclidean(-30, true) == 0
  {
  }

  function DigitChar(d: int): char
    requires 0 <= d < 10
  {
    ('0' as int + d) as char
  }

  /** The decimal digits of a natural number, most significant first. */
  function Digits(n: nat): string {
    if n < 10 then [DigitChar(n)] else Digits(n / 10) + [DigitChar(n % 10)]
  }

  predicate IsDigit(c: char) {
    '0' <= c <= '9'
  }

  /** Every character printed is a decimal digit, and only zero prints with
      a leading '0'. */
  lemma {:induction false} DigitsShape(n: nat)
    ensures forall i :: 0 <= i < |Digits(n)| ==> IsDigit(Digits(n)[i])
    ensures Digits(n)[0] == '0' <==> n == 0
  {
    if n >= 10 {
      DigitsShape(n / 10);
      var d := Digits(n);
      assert d == Digits(n / 10) + [DigitChar(n % 10)];
      assert forall i :: 0 <= i < |d| - 1 ==> d[i] == Digits(n / 10)[i];
    }
  }

  /** `%d`. */
  function FormatInt(n: int): string {
    if n < 0 then "-" + Digits(-n) else Digits(n)
  }

  /** `%02d`: at least two characters, zero-padded. */
  function FormatInt2(n: int): string {
    if 0 <= n < 10 then "0" + Digits(n) else FormatInt(n)
  }

  /** The timer button's caption. */
  function TimerTitle(t: int, running: bool): string {
    if !running && t == DefaultTime then "15:00"
    else FormatInt(Quot(t, 60)) + ":" + FormatInt2(Rem(t, 60))
  }

  /** Reads a string of decimal digits. */
  function ParseDigits(s: string): int {
    if s == [] then 0 else ParseDigits(s[..|s| - 1]) * 10 + (s[|s| - 1] as int - '0' as int)
  }

  /** Reads an "m:ss" caption back as seconds. */
  function ParseClock(s: string): int
    requires |s| >= 3
  {
    ParseDigits(s[..|s| - 3]) * 60 + ParseDigits(s[|s| - 2..])
  }

  lemma {:induction false} DigitsRoundTrip(n: nat)
    ensures |Digits(n)| >= 1 && ParseDigits(Digits(n)) == n
  {
    if n >= 10 {
      DigitsRoundTrip(n / 10);
      var d := Digits(n);
      assert d[..|d| - 1] == Digits(n / 10);
    }
  }

  /** Seconds below sixty print as two digits that read back. */
  lemma TwoDigits(sec: int)
    requires 0 <= sec < 60
    ensures |FormatInt2(sec)| == 2 && ParseDigits(FormatInt2(sec)) == sec
    ensures IsDigit(FormatInt2(sec)[0]) && IsDigit(FormatInt2(sec)[1])
  {
    DigitsRoundTrip(sec);
    DigitsShape(sec);
    if sec < 10 {
      assert ParseDigits(FormatInt2(sec)) == ParseDigits("0") * 10 + sec;
    } else {
      assert FormatInt2(sec) == Digits(sec / 10) + [DigitChar(sec % 10)];
    }
  }

  lemma ColonSplit(a: string, b: string)
    requires |b| == 2
    ensures var s := a + ":" + b;
      |s| == |a| + 3 && s[|s| - 3] == ':' && s[|s| - 2..] == b && s[..|s| - 3] == a
  {
    var s := a + ":" + b;
    assert s[|s| - 2..] == b && s[..|s| - 3] == a;
  }

  /** The caption of every time the timer can hold is "m:ss": decimal digits
      with the colon third from the end, minutes without a leading zero and
      fewer than sixty seconds, and it reads back as that time; the fixed
      caption "15:00" of the idle default agrees. */
  lemma {:induction false} ClockRoundTrip(t: int, running: bool)
    requires t >= 0
    ensures var s := TimerTitle(t, running);
      |s| >= 4 && s[|s| - 3] == ':' && ParseDigits(s[|s| - 2..]) < 60 && ParseClock(s) == t
    ensures var s := TimerTitle(t, running);
      (forall i :: 0 <= i < |s| && i != |s| - 3 ==> IsDigit(s[i]))
      && (|s| == 4 || s[0] != '0')
  {
    var m, sec := Quot(t, 60), Rem(t, 60);
    DigitsRoundTrip(m);
    DigitsShape(m);
    TwoDigits(sec);
    ColonSplit(Digits(m), FormatInt2(sec));
    assert TimerTitle(t, true) == Digits(m) + ":" + FormatInt2(sec);
    if !running && t == DefaultTime {
      DefaultTitleAgrees();
    }
  }

  /** The default caption is what the general format prints for 900 seconds. */
  lemma DefaultTitleAgrees()
    ensures TimerTitle(DefaultTime, false) == TimerTitle(DefaultTime, true)
  {
    assert Digits(15) == "15";
  }

  /** The timer's state as the view holds it. */
  class Countdown {
    var timeRemaining: int
    var isRunning: bool

    ghost predicate Valid()
      reads this
    {
      0 <= timeRemaining <= MaxTime
    }

    constructor ()
      ensures Valid() && timeRemaining == DefaultTime && !isRunning
    {
      timeRemaining := DefaultTime;
      isRunning := false;
    }

    /** The once-a-second tick: count down while running; at zero, stop. */
    method Tick()
      requires Valid()
      modifies this
      ensures Valid()
      ensures old(isRunning) && old(timeRemaining) > 0 ==> timeRemaining == old(timeRemaining) - 1 && isRunning
      ensures !(old(isRunning) && old(timeRemaining) > 0) ==>
        timeRemaining == old(timeRemaining) && isRunning == (old(isRunning) && old(timeRemaining) != 0)
      ensures old(timeRemaining) == 0 ==> !isRunning
    {
      if isRunning && timeRemaining > 0 {
        timeRemaining := timeRemaining - 1;
      } else if timeRemaining == 0 {
        isRunning := false;
      }
    }

    /** A scroll-wheel event: it acts only while the mouse is over the
        timer and the scaled delta is at least 0.1 in magnitude; `increase`
        is whether that delta is negative. */
    method Scroll(hovering: bool, significant: bool, increase: bool)
      requires Valid()
      modifies this
      ensures Valid() && isRunning == old(isRunning)
      ensures timeRemaining == if hovering && significant then ScrollAdjust(old(timeRemaining), increase) else old(timeRemaining)
      ensures timeRemaining % 120 == 0 || timeRemaining == MaxTime || timeRemaining == old(timeRemaining)
    {
      if hovering && significant {
        ScrollAdjustRange(timeRemaining, increase);
        timeRemaining := ScrollAdjust(timeRemaining, increase);
      }
    }

    /** A click on the timer button: a second click within 0.3 s resets to
        the default and stops; otherwise the click toggles running. */
    method Click(doubleClick: bool)
      requires Valid()
      modifies this
      ensures Valid()
      ensures doubleClick ==> timeRemaining == DefaultTime && !isRunning
      ensures !doubleClick ==> timeRemaining == old(timeRemaining) && isRunning == !old(isRunning)
    {
      if doubleClick {
        timeRemaining := DefaultTime;
        isRunning := false;
      } else {
        isRunning := !isRunning;
      }
    }

    /** Typing starts a stopped timer once the text has a visible character. */
    method OnTyping(text: string)
      requires Valid()
      modifies this
      ensures Valid() && timeRemaining == old(timeRemaining)
      ensures isRunning == (old(isRunning) || exists i :: 0 <= i < |text| && !IsSpaceOrNewline(text[i]))
    {
      if !isRunning && Trim(text, WhitespacesAndNewlines) != [] {
        isRunning := true;
      }
    }

    /** The typing timer firing after three seconds without a keystroke. */
    method TypingPaused()
      requires Valid()
      modifies this
      ensures Valid() && timeRemaining == old(timeRemaining) && !isRunning
    {
      if isRunning {
        isRunning := false;
      }
    }
  }
}
