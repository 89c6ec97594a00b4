/** The pomodoro timer: work intervals alternate with breaks, every fourth
    break is a long one, and the countdown runs once per second. */
module Pomodoro {
  import opened Base

  datatype Mode = Work | Break | LongBreak

  /** The three minute settings, as typed by the user (possibly zero or
      negative: the number inputs do not enforce their bounds). */
  datatype Settings = Settings(workMinutes: int, breakMinutes: int, longBreakMinutes: int)

  datatype State = State(settings: Settings, mode: Mode, running: bool, secondsLeft: int, completed: nat)

  const DefaultSettings: Settings := Settings(25, 5, 15)

  /** The timer as it first appears: 25 minutes of work, stopped. */
  const Initial: State := State(DefaultSettings, Work, false, 25 * 60, 0)

  function MinutesFor(st: Settings, m: Mode): int
  {
    match m
    case Work => st.workMinutes
    case Break => st.breakMinutes
    case LongBreak => st.longBreakMinutes
  }

  /** The rest that follows the work interval which brings the number of
      completed work intervals to `done`. */
  function RestAfter(done: nat): (m: Mode)
    ensures m != Work
    ensures m == LongBreak <==> done % 4 == 0
  {
    if done % 4 == 0 then LongBreak else Break
  }

  ghost predicate NonNegative(st: Settings)
  {
    st.workMinutes >= 0 && st.breakMinutes >= 0 && st.longBreakMinutes >= 0
  }

  /** One second of the interval timer (no timer runs while stopped).  A
      positive countdown is decremented; at zero a finished work interval
      is counted and followed by a break, a long one when the new count is
      a multiple of 4, and a finished break is followed by work.  The new
      mode's full length is loaded. */
  function Tick(s: State): (t: State)
    ensures t.settings == s.settings && t.running == s.running
    ensures !s.running ==> t == s
    ensures s.running && s.secondsLeft > 0 ==> t == s.(secondsLeft := s.secondsLeft - 1)
    ensures s.running && s.secondsLeft <= 0 ==>
              && t.mode != s.mode
              && (t.mode == Work <==> s.mode != Work)
              && t.secondsLeft == MinutesFor(s.settings, t.mode) * 60
              && t.completed == s.completed + (if s.mode == Work then 1 else 0)
              && (t.mode == LongBreak <==> s.mode == Work && t.completed % 4 == 0)
    ensures t.completed == s.completed || (t.completed == s.completed + 1 && s.mode == Work != t.mode)
    ensures s.running && NonNegative(s.settings) ==> t.secondsLeft >= 0
  {
    if !s.running then s
    else if s.secondsLeft > 0 then s.(secondsLeft := s.secondsLeft - 1)
    else if s.mode == Work then
      var next := if (s.completed + 1) % 4 == 0 then LongBreak else Break;
      s.(completed := s.completed + 1, mode := next,
         secondsLeft := (if next == LongBreak then s.settings.longBreakMinutes else s.settings.breakMinutes) * 60)
    else
      s.(mode := Work, secondsLeft := s.settings.workMinutes * 60)
  }

  /** `n` consecutive ticks. */
  function Run(s: State, n: nat): State
    decreases n
  {
    if n == 0 then s else Run(Tick(s), n - 1)
  }

  lemma {:induction false} RunAdd(s: State, a: nat, b: nat)
    ensures Run(s, a + b) == Run(Run(s, a), b)
    decreases a
  {
    if a > 0 {
      RunAdd(Tick(s), a - 1, b);
    }
  }

  /** Counting down from `n` seconds: after `j <= n` ticks the mode is
      unchanged and `n - j` seconds are left. */
  lemma {:induction false} CountDown(s: State, j: nat)
    requires s.running && j <= s.secondsLeft
    ensures Run(s, j) == s.(secondsLeft := s.secondsLeft - j)
    decreases j
  {
    if j > 0 {
      CountDown(Tick(s), j - 1);
    }
  }

  /** A mode entered with `n >= 0` seconds shows 0 after `n` ticks and is
      left only on tick `n + 1`. */
  lemma ModeSpan(s: State)
    requires s.running && s.secondsLeft >= 0
    ensures Run(s, s.secondsLeft).mode == s.mode && Run(s, s.secondsLeft).secondsLeft == 0
    ensures Run(s, s.secondsLeft + 1) == Tick(s.(secondsLeft := 0))
    ensures Run(s, s.secondsLeft + 1).mode != s.mode
  {
    CountDown(s, s.secondsLeft);
    RunAdd(s, s.secondsLeft, 1);
  }

  /** Ticks spent in one work interval followed by its break. */
  function RoundTicks(s: State): nat
    requires s.secondsLeft >= 0 && NonNegative(s.settings)
  {
    var rest := MinutesFor(s.settings, RestAfter(s.completed + 1));
    s.secondsLeft + 1 + rest * 60 + 1
  }

  /** Ready for a fresh work interval: running, at the top of work. */
  ghost predicate AtWorkStart(s: State)
  {
    s.running && s.mode == Work && s.secondsLeft == s.settings.workMinutes * 60 && NonNegative(s.settings)
  }

  /** One pomodoro round: the work interval ends in the break `RestAfter`
      picks for the new count, and that break ends back at the top of work
      with the count one higher. */
  lemma Round(s: State)
    requires AtWorkStart(s)
    ensures Run(s, s.secondsLeft + 1).mode == RestAfter(s.completed + 1)
    ensures Run(s, RoundTicks(s)) == s.(completed := s.completed + 1)
  {
    ModeSpan(s);
    var r := Run(s, s.secondsLeft + 1);
    ModeSpan(r);
    RunAdd(s, s.secondsLeft + 1, r.secondsLeft + 1);
  }

  /** The state after `k` full rounds. */
  function Rounds(s: State, k: nat): (t: State)
    requires AtWorkStart(s)
    ensures AtWorkStart(t)
    decreases k
  {
    if k == 0 then s
    else
      Round(s);
      Rounds(Run(s, RoundTicks(s)), k - 1)
  }

  /** Starting from `c0` completed work intervals, after `k` rounds the
      count is `c0 + k`, and the next round's break is long exactly when
      `c0 + k + 1` is a multiple of 4. */
  lemma {:induction false} RoundsCount(s: State, k: nat)
    requires AtWorkStart(s)
    ensures Rounds(s, k) == s.(completed := s.completed + k)
    decreases k
  {
    if k > 0 {
      Round(s);
      RoundsCount(Run(s, RoundTicks(s)), k - 1);
    }
  }

  /** From zero completed intervals, the break after the `k`-th work
      interval is a long break exactly when `k` is a multiple of 4. */
  lemma KthBreakIsLongIffMultipleOf4(s: State, k: nat)
    requires AtWorkStart(s) && s.completed == 0 && k >= 1
    ensures var w := Rounds(s, k - 1);
            Run(w, w.secondsLeft + 1).mode == LongBreak <==> k % 4 == 0
  {
    RoundsCount(s, k - 1);
    Round(Rounds(s, k - 1));
  }

  /** "Начать" and "Пауза" only switch the timer on and off. */
  function Start(s: State): (t: State)
    ensures t.running && t.(running := s.running) == s
  {
    s.(running := true)
  }

  function Pause(s: State): (t: State)
    ensures !t.running && t.(running := s.running) == s
  {
    s.(running := false)
  }

  /** Reset: stop and load a full work interval; the completed count is
      kept. */
  function Reset(s: State): (t: State)
    ensures !t.running && t.mode == Work && t.secondsLeft == s.settings.workMinutes * 60
    ensures t.completed == s.completed && t.settings == s.settings
  {
    s.(running := false, mode := Work, secondsLeft := s.settings.workMinutes * 60)
  }

  /** Pausing and then starting again resumes the countdown where it was:
      the remaining seconds and the mode survive the pause. */
  lemma PauseResume(s: State)
    requires s.running
    ensures Start(Pause(s)) == s
  {
  }

  /** The clock display: `Math.floor(secondsLeft / 60)` minutes and
      `secondsLeft % 60` seconds, where `%` truncates toward zero as in
      JavaScript.  For the non-negative values the timer reaches, the
      split is exact and the seconds are below 60. */
  function Display(secondsLeft: int): (r: (int, int))
    ensures secondsLeft >= 0 ==> r.0 * 60 + r.1 == secondsLeft && 0 <= r.1 < 60 && r.0 >= 0
    ensures secondsLeft < 0 ==> r.0 < 0 && -60 < r.1 <= 0
  {
    var minutes := secondsLeft / 60;
    var seconds := if secondsLeft >= 0 then secondsLeft % 60 else -((-secondsLeft) % 60);
    (minutes, seconds)
  }

  /** The "pomodoros until the long break" hint: between 1 and 4, and
      (being the only such number in that range) exactly the number of
      further work intervals after which the count is next a multiple of 4. */
  function UntilLongBreak(completed: nat): (n: nat)
    ensures 1 <= n <= 4
    ensures (completed + n) % 4 == 0
  {
    4 - completed % 4
  }

  /** `Number.parseInt(text) || fallback`: a failed parse (`NaN`, here
      `None`) or a zero falls back; any other number, negative ones
      included, is taken as typed. */
  function ParseMinutes(parsed: Option<int>, fallback: int): (v: int)
    ensures parsed.Some? && parsed.value != 0 ==> v == parsed.value
    ensures parsed.None? || parsed == Some(0) ==> v == fallback
  {
    match parsed
    case None => fallback
    case Some(n) => if n == 0 then fallback else n
  }

  /** Editing the work minutes: the fallback is 25, and the countdown is
      re-synced only while the timer shows a stopped work interval. */
  function SetWorkMinutes(s: State, parsed: Option<int>): (t: State)
    ensures t.settings == s.settings.(workMinutes := ParseMinutes(parsed, 25))
    ensures t.settings.workMinutes != 0
    ensures t.mode == s.mode && t.running == s.running && t.completed == s.completed
    ensures t.secondsLeft == (if s.mode == Work && !s.running then t.settings.workMinutes * 60 else s.secondsLeft)
  {
    var v := ParseMinutes(parsed, 25);
    var t := s.(settings := s.settings.(workMinutes := v));
    if s.mode == Work && !s.running then t.(secondsLeft := v * 60) else t
  }

  /** Editing the break minutes (fallback 5) never touches the clock. */
  function SetBreakMinutes(s: State, parsed: Option<int>): (t: State)
    ensures t == s.(settings := s.settings.(breakMinutes := ParseMinutes(parsed, 5)))
    ensures t.settings.breakMinutes != 0
  {
    s.(settings := s.settings.(breakMinutes := ParseMinutes(parsed, 5)))
  }

  /** Editing the long-break minutes (fallback 15) never touches the clock. */
  function SetLongBreakMinutes(s: State, parsed: Option<int>): (t: State)
    ensures t == s.(settings := s.settings.(longBreakMinutes := ParseMinutes(parsed, 15)))
    ensures t.settings.longBreakMinutes != 0
  {
    s.(settings := s.settings.(longBreakMinutes := ParseMinutes(parsed, 15)))
  }

  /** With non-negative settings, the countdown never goes negative, however
      many ticks run. */
  lemma {:induction false} NeverNegative(s: State, n: nat)
    requires NonNegative(s.settings) && s.secondsLeft >= 0
    ensures Run(s, n).secondsLeft >= 0
    decreases n
  {
    if n > 0 {
      NeverNegative(Tick(s), n - 1);
    }
  }
}
