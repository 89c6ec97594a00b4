/** The guided-breathing exercise: a once-per-second countdown through
    inhale, hold, exhale and rest, skipping phases whose duration is zero
    and counting completed cycles. */
module Breathing {

  datatype Phase = Inhale | Hold | Exhale | Rest

  /** One breathing technique: a duration in seconds per phase. */
  datatype Pattern = Pattern(name: string, inhale: nat, hold: nat, exhale: nat, rest: nat)

  /** The three techniques the exercise offers. */
  datatype PatternKey = FourSevenEight | Square | Simple

  /** The technique table; every shipped technique has a non-empty inhale
      and exhale. */
  function PatternOf(k: PatternKey): (p: Pattern)
    ensures p.inhale > 0 && p.exhale > 0
  {
    match k
    case FourSevenEight => Pattern("4-7-8 (Глубокое расслабление)", 4, 7, 8, 0)
    case Square => Pattern("Квадратное дыхание (Баланс)", 4, 4, 4, 4)
    case Simple => Pattern("Простое (4-4)", 4, 0, 4, 0)
  }

  function Duration(p: Pattern, ph: Phase): nat
  {
    match ph
    case Inhale => p.inhale
    case Hold => p.hold
    case Exhale => p.exhale
    case Rest => p.rest
  }

  /** Ticks in one full cycle: each phase lasts its duration. */
  function CycleTicks(p: Pattern): nat
  {
    p.inhale + p.hold + p.exhale + p.rest
  }

  /** The fixed cyclic order of the phases. */
  function Succ(ph: Phase): Phase
  {
    match ph
    case Inhale => Hold
    case Hold => Exhale
    case Exhale => Rest
    case Rest => Inhale
  }

  /** Reference rule for a phase change: the first phase after `ph`, in
      cyclic order, whose duration is positive. */
  function NextLive(p: Pattern, ph: Phase): Phase
  {
    var a := Succ(ph);
    if Duration(p, a) > 0 then a
    else
      var b := Succ(a);
      if Duration(p, b) > 0 then b
      else
        var c := Succ(b);
        if Duration(p, c) > 0 then c else ph
  }

  datatype State = State(pattern: PatternKey, active: bool, phase: Phase, secondsLeft: int, cycleCount: nat)

  /** The exercise as it first appears: 4-7-8, stopped, about to inhale. */
  const Initial: State := State(FourSevenEight, false, Inhale, PatternOf(FourSevenEight).inhale, 0)

  /** One second of the interval timer.  No timer runs while the exercise
      is inactive.  Above one second left the countdown just decrements;
      otherwise the exercise moves to the next phase with a positive
      duration, loads that phase's full duration, and counts a cycle
      exactly when it wraps back to inhale. */
  function Tick(s: State): (t: State)
    ensures t.pattern == s.pattern && t.active == s.active
    ensures !s.active ==> t == s
    ensures s.active && s.secondsLeft > 1 ==> t == s.(secondsLeft := s.secondsLeft - 1)
    ensures s.active && s.secondsLeft <= 1 ==>
              && t.phase == NextLive(PatternOf(s.pattern), s.phase)
              && t.secondsLeft == Duration(PatternOf(s.pattern), t.phase)
              && t.cycleCount == s.cycleCount + (if t.phase == Inhale then 1 else 0)
    ensures s.active ==> t.secondsLeft >= 1
    ensures t.phase != s.phase ==> Duration(PatternOf(s.pattern), t.phase) > 0
    ensures t.cycleCount != s.cycleCount ==> t.cycleCount == s.cycleCount + 1 && t.phase == Inhale != s.phase
  {
    if !s.active then s
    else if s.secondsLeft > 1 then s.(secondsLeft := s.secondsLeft - 1)
    else
      var p := PatternOf(s.pattern);
      match s.phase
      case Inhale =>
        if p.hold > 0 then s.(phase := Hold, secondsLeft := p.hold)
        else s.(phase := Exhale, secondsLeft := p.exhale)
      case Hold => s.(phase := Exhale, secondsLeft := p.exhale)
      case Exhale =>
        if p.rest > 0 then s.(phase := Rest, secondsLeft := p.rest)
        else s.(phase := Inhale, secondsLeft := p.inhale, cycleCount := s.cycleCount + 1)
      case Rest => s.(phase := Inhale, secondsLeft := p.inhale, cycleCount := s.cycleCount + 1)
  }

  /** `n` consecutive ticks. */
  function Run(s: State, n: nat): State
    decreases n
  {
    if n == 0 then s else Run(Tick(s), n - 1)
  }

  lemma {:induction false} RunAdd(s: State, a: nat, b: nat)
    ensures Run(s, a + b) == Run(Run(s, a), b)
    decreases a
  {
    if a > 0 {
      RunAdd(Tick(s), a - 1, b);
    }
  }

  /** While more than one second is left, ticks only count down. */
  lemma {:induction false} CountDown(s: State, j: nat)
    requires s.active && j < s.secondsLeft
    ensures Run(s, j) == s.(secondsLeft := s.secondsLeft - j)
    decreases j
  {
    if j > 0 {
      CountDown(Tick(s), j - 1);
    }
  }

  /** A phase entered with `d` seconds on the clock lasts exactly `d`
      ticks: the first `d` ticks stay in it, the `d`-th tick leaves it. */
  lemma Segment(s: State)
    requires s.active && s.secondsLeft >= 1
    ensures forall j :: 0 <= j < s.secondsLeft ==> Run(s, j) == s.(secondsLeft := s.secondsLeft - j)
    ensures Run(s, s.secondsLeft) == Tick(s.(secondsLeft := 1))
  {
    forall j | 0 <= j < s.secondsLeft
      ensures Run(s, j) == s.(secondsLeft := s.secondsLeft - j)
    {
      CountDown(s, j);
    }
    CountDown(s, s.secondsLeft - 1);
    RunAdd(s, s.secondsLeft - 1, 1);
  }

  /** The cycle count does not move during the first `n` ticks from `s`. */
  ghost predicate Steady(s: State, n: nat)
  {
    forall j :: 0 <= j < n ==> Run(s, j).cycleCount == s.cycleCount
  }

  lemma SteadyConcat(s: State, a: nat, b: nat)
    requires Steady(s, a) && Run(s, a).cycleCount == s.cycleCount && Steady(Run(s, a), b)
    ensures Steady(s, a + b)
  {
    forall j | a <= j < a + b
      ensures Run(s, j).cycleCount == s.cycleCount
    {
      RunAdd(s, a, j - a);
    }
  }

  lemma SegmentSteady(s: State)
    requires s.active && s.secondsLeft >= 1
    ensures Steady(s, s.secondsLeft)
  {
    Segment(s);
  }

  /** From the top of an inhale, the exercise reaches the top of the exhale
      after `inhale + hold` ticks, without counting a cycle on the way. */
  lemma ToExhale(s: State)
    requires s.active && s.phase == Inhale && s.secondsLeft == PatternOf(s.pattern).inhale
    ensures var p := PatternOf(s.pattern);
      Run(s, p.inhale + p.hold) == s.(phase := Exhale, secondsLeft := p.exhale)
    ensures var p := PatternOf(s.pattern);
      Steady(s, p.inhale + p.hold)
  {
    var p := PatternOf(s.pattern);
    Segment(s);
    SegmentSteady(s);
    var s1 := Run(s, p.inhale);
    RunAdd(s, p.inhale, p.hold);
    if p.hold > 0 {
      assert s1 == s.(phase := Hold, secondsLeft := p.hold);
      Segment(s1);
      SegmentSteady(s1);
      SteadyConcat(s, p.inhale, p.hold);
    } else {
      assert s1 == s.(phase := Exhale, secondsLeft := p.exhale);
    }
  }

  /** From the top of an exhale, the exercise reaches the top of the next
      inhale after `exhale + rest` ticks, counting the cycle on the last. */
  lemma ToInhale(s: State)
    requires s.active && s.phase == Exhale && s.secondsLeft == PatternOf(s.pattern).exhale
    ensures var p := PatternOf(s.pattern);
      Run(s, p.exhale + p.rest) == s.(phase := Inhale, secondsLeft := p.inhale, cycleCount := s.cycleCount + 1)
    ensures var p := PatternOf(s.pattern);
      Steady(s, p.exhale + p.rest)
  {
    var p := PatternOf(s.pattern);
    Segment(s);
    SegmentSteady(s);
    var s1 := Run(s, p.exhale);
    RunAdd(s, p.exhale, p.rest);
    if p.rest > 0 {
      assert s1 == s.(phase := Rest, secondsLeft := p.rest);
      Segment(s1);
      SegmentSteady(s1);
      SteadyConcat(s, p.exhale, p.rest);
    } else {
      assert s1 == s.(phase := Inhale, secondsLeft := p.inhale, cycleCount := s.cycleCount + 1);
    }
  }

  /** One full cycle: started at the top of an inhale, the exercise is back
      at the top of an inhale after exactly `CycleTicks` ticks, with the
      cycle count one higher, and the count does not move before that. */
  lemma FullCycle(s: State)
    requires s.active && s.phase == Inhale && s.secondsLeft == PatternOf(s.pattern).inhale
    ensures Run(s, CycleTicks(PatternOf(s.pattern))) == s.(cycleCount := s.cycleCount + 1)
    ensures Steady(s, CycleTicks(PatternOf(s.pattern)))
  {
    var p := PatternOf(s.pattern);
    ToExhale(s);
    var s2 := s.(phase := Exhale, secondsLeft := p.exhale);
    ToInhale(s2);
    RunAdd(s, p.inhale + p.hold, p.exhale + p.rest);
    SteadyConcat(s, p.inhale + p.hold, p.exhale + p.rest);
    assert p.inhale + p.hold + (p.exhale + p.rest) == CycleTicks(p);
  }

  /** "Начать": run from the top of an inhale, keeping the cycle count. */
  function Start(s: State): (t: State)
    ensures t.active && t.pattern == s.pattern && t.cycleCount == s.cycleCount
    ensures t.phase == Inhale && t.secondsLeft == PatternOf(s.pattern).inhale
  {
    s.(active := true, phase := Inhale, secondsLeft := PatternOf(s.pattern).inhale)
  }

  /** "Пауза": stop the timer; nothing else changes. */
  function Pause(s: State): (t: State)
    ensures !t.active && t.(active := s.active) == s
  {
    s.(active := false)
  }

  /** Reset: stop, return to the top of an inhale and zero the count. */
  function Reset(s: State): (t: State)
    ensures !t.active && t.pattern == s.pattern && t.cycleCount == 0
    ensures t.phase == Inhale && t.secondsLeft == PatternOf(s.pattern).inhale
  {
    s.(active := false, phase := Inhale, secondsLeft := PatternOf(s.pattern).inhale, cycleCount := 0)
  }

  /** Choosing a technique (offered only while stopped) changes only the
      technique; the clock is reloaded by the next start. */
  function SelectPattern(s: State, k: PatternKey): (t: State)
    ensures t.pattern == k && t.(pattern := s.pattern) == s
  {
    s.(pattern := k)
  }

  /** After a start, `n` full cycles take `n * CycleTicks` ticks and add
      exactly `n` to the cycle count. */
  lemma {:induction false} StartedCycles(s: State, n: nat)
    ensures Run(Start(s), n * CycleTicks(PatternOf(s.pattern))) == Start(s).(cycleCount := s.cycleCount + n)
    decreases n
  {
    var c := CycleTicks(PatternOf(s.pattern));
    if n > 0 {
      StartedCycles(s, n - 1);
      var m := Run(Start(s), (n - 1) * c);
      FullCycle(m);
      RunAdd(Start(s), (n - 1) * c, c);
      assert (n - 1) * c + c == n * c;
    }
  }

  /** A paused exercise is frozen: ticks change nothing. */
  lemma {:induction false} PausedIsFrozen(s: State, n: nat)
    ensures Run(Pause(s), n) == Pause(s)
    decreases n
  {
    if n > 0 {
      PausedIsFrozen(s, n - 1);
    }
  }

  /** The 4-7-8 technique: one cycle is 19 ticks, with no rest phase. */
  lemma FourSevenEightCycle(s: State)
    requires s.pattern == FourSevenEight
    ensures CycleTicks(PatternOf(s.pattern)) == 19
    ensures Run(Start(s), 19) == Start(s).(cycleCount := s.cycleCount + 1)
  {
    StartedCycles(s, 1);
  }
}
