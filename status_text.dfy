/**
 * The text the pomodoro manager writes into the status bar while a session
 * is in progress: the time ("mm:ss", zero-padded), a label for the current
 * phase, and " (i out of n pomodori)" when the session has more than one
 * pomodoro. Each piece comes with a reader that recovers what it shows.
 */
module StatusText {
  import opened Js
  import opened Statuses

  /** The label `currentState` gives a phase; None and Done have none. */
  function StateLabel(s: PomodoroStatus): (r: string)
    ensures r == "" <==> s == None || s == Done
    ensures r != "" ==> |r| > 3 && r[..3] == " - "
    ensures NoParen(r)
  {
    match s
    case Work => " - work"
    case Rest => " - rest"
    case Paused => " - paused"
    case Break => " - break"
    case _ => ""
  }

  /** A non-empty label names exactly one phase. */
  lemma LabelIdentifiesStatus(a: PomodoroStatus, b: PomodoroStatus)
    requires StateLabel(a) == StateLabel(b) != ""
    ensures a == b
  {
  }

  /**
   * The number of seconds shown: the timer value when counting down,
   * otherwise the time spent out of the work length.
   */
  function DisplayTime(currentTime: int, workTime: int, isCountDown: bool): (t: int)
    ensures isCountDown ==> t == currentTime
    ensures !isCountDown ==> t + currentTime == workTime * 60
    ensures 0 <= currentTime <= workTime * 60 ==> 0 <= t <= workTime * 60
  {
    if isCountDown then currentTime else workTime * 60 - currentTime
  }

  /**
   * The two display modes mirror each other: the counted-down and the
   * counted-up times add up to the work length, and counting up is its own
   * inverse, so the timer value can be read back from either.
   */
  lemma CountUpMirrorsCountDown(currentTime: int, workTime: int)
    ensures DisplayTime(currentTime, workTime, true) + DisplayTime(currentTime, workTime, false) == workTime * 60
    ensures DisplayTime(DisplayTime(currentTime, workTime, false), workTime, false) == currentTime
  {
  }

  /** Whole minutes and remaining seconds of `t`, with JavaScript's `%`. */
  function SplitTime(t: int): (ms: (int, int))
    ensures ms.0 * 60 + ms.1 == t
    ensures t >= 0 ==> ms.1 == t % 60 && 0 <= ms.1 < 60 && ms.0 >= 0
    ensures t < 0 ==> -60 < ms.1 <= 0 && ms.0 <= 0
  {
    var seconds := Rem(t, 60);
    var minutes := (t - seconds) / 60;
    (minutes, seconds)
  }

  /** A number written with a "0" in front when it is below 10. */
  function Pad(n: int): (r: string)
    ensures |r| >= 2 && IsDigit(r[0])
    ensures n >= 0 ==> AllDigits(r) && ParseDigits(r) == n
    ensures n >= 0 ==> |r| >= 2 && (r[0] == '0' <==> n < 10)
    ensures 0 <= n < 100 ==> |r| == 2
    ensures n < 0 ==> |r| >= 3 && r[..2] == "0-"
  {
    var digits := NumberToString(n);
    if n < 0 then "0" + digits
    else if n < 10 then
      ParseLeadingZero(digits);
      "0" + digits
    else digits
  }

  /** "mm:ss" for a number of seconds. */
  function TimerText(t: int): (r: string)
    ensures |r| >= 5 && IsDigit(r[0])
    ensures t >= 0 ==> |r| >= 5 && r[|r| - 3] == ':'
    ensures t >= 0 ==> AllDigits(r[..|r| - 3]) && AllDigits(r[|r| - 2..])
    ensures t >= 0 ==> ParseTimer(r) == Defined(t)
  {
    var ms := SplitTime(t);
    var mm, ss := Pad(ms.0), Pad(ms.1);
    if t >= 0 then
      ColonParts(mm, ss, t, ms.0, ms.1);
      mm + ":" + ss
    else
      ColonHead(mm, ss);
      mm + ":" + ss
  }

  /** `mm + ":" + ss` starts with the digit `mm` starts with. */
  lemma ColonHead(mm: string, ss: string)
    requires |mm| >= 2 && IsDigit(mm[0]) && |ss| >= 2
    ensures var r := mm + ":" + ss; |r| >= 5 && IsDigit(r[0])
  {
  }

  /**
   * The shape and value of `mm + ":" + ss` when `mm` and the two-character
   * `ss` are the digits of the minutes `m` and seconds `n` of `t`.
   */
  lemma ColonParts(mm: string, ss: string, t: int, m: int, n: int)
    requires |mm| >= 2 && AllDigits(mm) && AllDigits(ss) && |ss| == 2
    requires ParseDigits(mm) == m && ParseDigits(ss) == n && m * 60 + n == t
    ensures var r := mm + ":" + ss;
      |r| >= 5 && IsDigit(r[0]) && r[|r| - 3] == ':' && AllDigits(r[..|r| - 3]) && AllDigits(r[|r| - 2..]) &&
      ParseTimer(r) == Defined(t)
  {
    var r := mm + ":" + ss;
    assert r[..|r| - 3] == mm && r[|r| - 2..] == ss;
    var a, b := ParseDigits(r[..|r| - 3]), ParseDigits(r[|r| - 2..]);
    assert a == m && b == n;
  }

  /** Reads "mm:ss" back into seconds: digits, a colon, then two digits. */
  function ParseTimer(s: string): Maybe<int> {
    if |s| >= 4 && s[|s| - 3] == ':' && AllDigits(s[..|s| - 3]) && AllDigits(s[|s| - 2..]) then
      Defined(ParseDigits(s[..|s| - 3]) * 60 + ParseDigits(s[|s| - 2..]))
    else
      Undefined
  }

  /** " (i out of n pomodori)" for the pomodoro at `index`; nothing for a single pomodoro. */
  function PomodoroNumberPart(index: int, count: int): (r: string)
    ensures r == "" <==> count <= 1
    ensures r != "" ==> |r| > 2 && r[..2] == " ("
  {
    if count > 1 then
      " (" + NumberToString(index + 1) + " out of " + NumberToString(count) + " pomodori)"
    else
      ""
  }

  /** Reads " (i out of n pomodori)" back into the pair (i, n). */
  function ParseNumberPart(s: string): Maybe<(int, int)> {
    if |s| < 2 || s[..2] != " (" then Undefined else ParseOutOf(s[2..])
  }

  /** Reads "i out of n pomodori)". */
  function ParseOutOf(a: string): Maybe<(int, int)> {
    var k := DigitRun(a);
    if k == 0 || |a| - k < 8 || a[k..k + 8] != " out of " then Undefined
    else
      match ParseCount(a[k + 8..])
      case Undefined => Undefined
      case Defined(n) => Defined((ParseDigits(a[..k]), n))
  }

  /** Reads "n pomodori)". */
  function ParseCount(c: string): Maybe<int> {
    var m := DigitRun(c);
    if m == 0 || c[m..] != " pomodori)" then Undefined else Defined(ParseDigits(c[..m]))
  }

  lemma ParseCountOf(n: string)
    requires AllDigits(n) && n != []
    ensures ParseCount(n + " pomodori)") == Defined(ParseDigits(n))
  {
    var c := n + " pomodori)";
    DigitRunOfDigits(n, " pomodori)");
    assert c[..|n|] == n;
    assert c[|n|..] == " pomodori)";
  }

  lemma ParseOutOfOf(i: string, c: string)
    requires AllDigits(i) && i != [] && ParseCount(c).Defined?
    ensures ParseOutOf(i + " out of " + c) == Defined((ParseDigits(i), ParseCount(c).value))
  {
    var rest := " out of " + c;
    var a := i + rest;
    assert i + " out of " + c == a;
    var k := DigitRun(a);
    assert k == |i| by {
      DigitRunOfDigits(i, rest);
    }
    assert a[..k] == i && a[k..k + 8] == " out of " && a[k + 8..] == c;
    assert ParseDigits(a[..k]) == ParseDigits(i);
  }

  lemma ParseNumberPartOf(a: string)
    ensures ParseNumberPart(" (" + a) == ParseOutOf(a)
  {
    var s := " (" + a;
    assert s[..2] == " (" && s[2..] == a;
  }

  lemma ParseNumberPartDigits(i: string, n: string)
    requires AllDigits(i) && i != [] && AllDigits(n) && n != []
    ensures ParseNumberPart(" (" + i + " out of " + n + " pomodori)") == Defined((ParseDigits(i), ParseDigits(n)))
  {
    var c := n + " pomodori)";
    var a := i + " out of " + c;
    assert " (" + i + " out of " + n + " pomodori)" == " (" + a;
    ParseCountOf(n);
    ParseOutOfOf(i, c);
    ParseNumberPartOf(a);
  }

  /** The number part shows the one-based position and the count exactly. */
  lemma NumberPartRoundTrip(index: int, count: int)
    requires index >= 0 && count > 1
    ensures ParseNumberPart(PomodoroNumberPart(index, count)) == Defined((index + 1, count))
  {
    ParseNumberPartDigits(NumberToString(index + 1), NumberToString(count));
  }

  /** Whether `s` contains no "(". */
  predicate NoParen(s: string) {
    forall i :: 0 <= i < |s| ==> s[i] != '('
  }

  /** The number of characters before the first "(" of `s` (all of them when there is none). */
  function ParenRun(s: string): (k: nat)
    ensures k <= |s| && NoParen(s[..k])
    ensures k < |s| ==> s[k] == '('
    decreases |s|
  {
    if s == [] || s[0] == '(' then 0
    else
      var k := 1 + ParenRun(s[1..]);
      assert s[..k] == [s[0]] + s[1..][..k - 1];
      k
  }

  lemma {:induction false} ParenRunOf(a: string, b: string)
    requires NoParen(a)
    requires b == [] || b[0] == '('
    ensures ParenRun(a + b) == |a|
  {
    if a != [] {
      assert (a + b)[1..] == a[1..] + b;
      ParenRunOf(a[1..], b);
    } else {
      assert a + b == b;
    }
  }

  /** Reads the "mm:ss" at the start of `s`: the seconds it shows and the text after it. */
  function ParseTimerPrefix(s: string): Maybe<(int, string)> {
    var k := DigitRun(s);
    if |s| < k + 3 then Undefined
    else
      match ParseTimer(s[..k + 3])
      case Undefined => Undefined
      case Defined(t) => Defined((t, s[k + 3..]))
  }

  /** A time text followed by anything reads as that time and the rest. */
  lemma TimerPrefixOfText(w: string, rest: string)
    requires |w| >= 4 && w[|w| - 3] == ':' && AllDigits(w[..|w| - 3]) && AllDigits(w[|w| - 2..])
    ensures ParseTimer(w).Defined? && ParseTimerPrefix(w + rest) == Defined((ParseTimer(w).value, rest))
  {
    var m := w[..|w| - 3];
    var s := w + rest;
    assert s == m + (w[|w| - 3..] + rest);
    DigitRunOfDigits(m, w[|w| - 3..] + rest);
    assert s[..|m| + 3] == w && s[|m| + 3..] == rest;
  }

  lemma TimerPrefixOf(t: int, rest: string)
    requires t >= 0
    ensures ParseTimerPrefix(TimerText(t) + rest) == Defined((t, rest))
  {
    TimerPrefixOfText(TimerText(t), rest);
  }

  /**
   * Reads what follows the time: the phase label, up to the " (" of the
   * number part, and the number part when there is one.
   */
  function ParseLabelAndNumber(rest: string): Maybe<(string, Maybe<(int, int)>)> {
    var p := ParenRun(rest);
    if p == |rest| then Defined((rest, Undefined))
    else if p == 0 then Undefined
    else
      match ParseNumberPart(rest[p - 1..])
      case Undefined => Undefined
      case Defined(pos) => Defined((rest[..p - 1], Defined(pos)))
  }

  lemma LabelOnlyOf(phaseLabel: string)
    requires NoParen(phaseLabel)
    ensures ParseLabelAndNumber(phaseLabel) == Defined((phaseLabel, Undefined))
  {
    ParenRunOf(phaseLabel, []);
    assert phaseLabel + [] == phaseLabel;
  }

  lemma LabelAndNumberOf(phaseLabel: string, x: string)
    requires NoParen(phaseLabel)
    requires |x| >= 2 && x[..2] == " (" && ParseNumberPart(x).Defined?
    ensures ParseLabelAndNumber(phaseLabel + x) == Defined((phaseLabel, ParseNumberPart(x)))
  {
    var rest := phaseLabel + x;
    assert NoParen(phaseLabel + " ");
    assert rest == (phaseLabel + " ") + x[1..];
    assert x[1..][0] == x[1] == x[..2][1] == '(';
    ParenRunOf(phaseLabel + " ", x[1..]);
    assert rest[|phaseLabel|..] == x;
    assert rest[..|phaseLabel|] == phaseLabel;
  }

  /**
   * Reads a whole status-bar text of a session in progress back: the seconds
   * shown, the phase phaseLabel, and the position in the session when it is shown.
   */
  function ParseStatusBar(s: string): Maybe<(int, string, Maybe<(int, int)>)> {
    match ParseTimerPrefix(s)
    case Undefined => Undefined
    case Defined((t, rest)) =>
      match ParseLabelAndNumber(rest)
      case Undefined => Undefined
      case Defined((phaseLabel, pos)) => Defined((t, phaseLabel, pos))
  }

  lemma StatusBarOfParts(s: string, t: int, rest: string, phaseLabel: string, pos: Maybe<(int, int)>)
    requires ParseTimerPrefix(s) == Defined((t, rest))
    requires ParseLabelAndNumber(rest) == Defined((phaseLabel, pos))
    ensures ParseStatusBar(s) == Defined((t, phaseLabel, pos))
  {
  }

  lemma ConcatAssoc(a: string, b: string, c: string)
    ensures a + b + c == a + (b + c)
  {
  }

  lemma StatusBarWithNumber(t: int, phaseLabel: string, x: string)
    requires t >= 0 && NoParen(phaseLabel)
    requires |x| >= 2 && x[..2] == " (" && ParseNumberPart(x).Defined?
    ensures ParseStatusBar(TimerText(t) + phaseLabel + x) == Defined((t, phaseLabel, ParseNumberPart(x)))
  {
    ConcatAssoc(TimerText(t), phaseLabel, x);
    TimerPrefixOf(t, phaseLabel + x);
    LabelAndNumberOf(phaseLabel, x);
    StatusBarOfParts(TimerText(t) + (phaseLabel + x), t, phaseLabel + x, phaseLabel, ParseNumberPart(x));
  }

  lemma StatusBarWithoutNumber(t: int, phaseLabel: string)
    requires t >= 0 && NoParen(phaseLabel)
    ensures ParseStatusBar(TimerText(t) + phaseLabel) == Defined((t, phaseLabel, Undefined))
  {
    TimerPrefixOf(t, phaseLabel);
    LabelOnlyOf(phaseLabel);
    StatusBarOfParts(TimerText(t) + phaseLabel, t, phaseLabel, phaseLabel, Undefined);
  }

  /**
   * The status-bar text shows a non-negative time, the label and the
   * position exactly: reading it back gives all three.
   */
  lemma StatusBarRoundTrip(t: int, phaseLabel: string, index: int, count: int)
    requires t >= 0 && index >= 0 && NoParen(phaseLabel)
    ensures ParseStatusBar(TimerText(t) + phaseLabel + PomodoroNumberPart(index, count))
      == Defined((t, phaseLabel, if count > 1 then Defined((index + 1, count)) else Undefined))
  {
    var x := PomodoroNumberPart(index, count);
    if count > 1 {
      NumberPartRoundTrip(index, count);
      StatusBarWithNumber(t, phaseLabel, x);
    } else {
      assert TimerText(t) + phaseLabel + x == TimerText(t) + phaseLabel;
      StatusBarWithoutNumber(t, phaseLabel);
    }
  }
}
