/** The 5-4-3-2-1 grounding exercise: five steps, one per sense, walked
    through with a "next" button until the exercise is completed. */
module AntiPanic {

  datatype Step = Step(number: nat, sense: string, question: string, examples: seq<string>)

  const Steps: seq<Step> := [
    Step(5, "зрения", "Назови 5 вещей, которые ты видишь вокруг себя",
         ["стол", "окно", "телефон", "лампа", "книга"]),
    Step(4, "осязания", "Назови 4 вещи, которые ты можешь потрогать",
         ["одежда на теле", "поверхность стола", "волосы", "пол под ногами"]),
    Step(3, "слуха", "Назови 3 звука, которые ты слышишь",
         ["свое дыхание", "шум за окном", "гудение техники"]),
    Step(2, "обоняния", "Назови 2 запаха, которые ты чувствуешь",
         ["запах воздуха", "аромат кофе или чая"]),
    Step(1, "вкуса", "Назови 1 вкус, который ты ощущаешь сейчас",
         ["вкус во рту", "можешь выпить воды"])
  ]

  /** The steps count down from 5 to 1. */
  lemma StepNumbersCountDown()
    ensures |Steps| == 5
    ensures forall i :: 0 <= i < |Steps| ==> Steps[i].number == 5 - i
  {
  }

  datatype State = State(currentStep: int, completed: bool)

  const Initial: State := State(0, false)

  /** The current step always indexes the table. */
  ghost predicate Valid(s: State)
  {
    0 <= s.currentStep < |Steps|
  }

  /** "Далее": move to the following step, or, on the last step, mark the
      exercise completed and stay on that step. */
  function Next(s: State): (t: State)
    ensures s.currentStep < |Steps| - 1 ==> t == s.(currentStep := s.currentStep + 1)
    ensures s.currentStep >= |Steps| - 1 ==> t == s.(completed := true)
    ensures Valid(s) ==> Valid(t)
  {
    if s.currentStep < |Steps| - 1 then s.(currentStep := s.currentStep + 1)
    else s.(completed := true)
  }

  /** "Пройти ещё раз": back to the first step, not completed. */
  function Restart(s: State): (t: State)
    ensures t == Initial && Valid(t)
  {
    State(0, false)
  }

  /** `n` presses of "Далее". */
  function Presses(s: State, n: nat): State
    decreases n
  {
    if n == 0 then s else Presses(Next(s), n - 1)
  }

  /** From the start, fewer than 5 presses walk the steps in order; the
      5th press completes the exercise on the last step, and further
      presses change nothing. */
  lemma {:induction false} PressesFromStart(n: nat)
    ensures n < 5 ==> Presses(Initial, n) == State(n, false)
    ensures n >= 5 ==> Presses(Initial, n) == State(4, true)
  {
    if n >= 5 {
      PressesFromStart(4);
      PressesAdd(Initial, 4, n - 4);
      CompletedIsStable(n - 5);
    } else if n > 0 {
      PressesFromStart(n - 1);
      PressesAdd(Initial, n - 1, 1);
    }
  }

  lemma {:induction false} PressesAdd(s: State, a: nat, b: nat)
    ensures Presses(s, a + b) == Presses(Presses(s, a), b)
    decreases a
  {
    if a > 0 {
      PressesAdd(Next(s), a - 1, b);
    }
  }

  lemma {:induction false} CompletedIsStable(n: nat)
    ensures Presses(State(4, true), n) == State(4, true)
    decreases n
  {
    if n > 0 {
      CompletedIsStable(n - 1);
    }
  }

  /** Exactly five presses are needed: the exercise is completed after `n`
      presses from the start if and only if `n >= 5`. */
  lemma CompletedIffFivePresses(n: nat)
    ensures Presses(Initial, n).completed <==> n >= 5
  {
    PressesFromStart(n);
  }
}
