/** The task breaker: a keyword classifier that turns a big task into one
    of four fixed step lists, and a checklist over the generated steps. */
module TaskBreaker {
  import opened Text
  import Percent

  datatype Category = Exam | Essay | Project | General

  const ExamKeywords: seq<string> := ["экзамен", "подготовка"]
  const EssayKeywords: seq<string> := ["реферат", "эссе", "курсовая"]
  const ProjectKeywords: seq<string> := ["проект", "презентация"]

  /** Some keyword occurs in the text. */
  predicate MentionsAny(text: string, keywords: seq<string>)
  {
    keywords != [] && (Contains(text, keywords[0]) || MentionsAny(text, keywords[1..]))
  }

  lemma MentionsKeywordLists(text: string)
    ensures MentionsAny(text, ExamKeywords) <==> Contains(text, "экзамен") || Contains(text, "подготовка")
    ensures MentionsAny(text, EssayKeywords) <==>
              Contains(text, "реферат") || Contains(text, "эссе") || Contains(text, "курсовая")
    ensures MentionsAny(text, ProjectKeywords) <==> Contains(text, "проект") || Contains(text, "презентация")
  {
    MentionsTwo(text, "экзамен", "подготовка");
    MentionsTwo(text, "проект", "презентация");
    var e := EssayKeywords;
    assert e[1..] == ["эссе", "курсовая"];
    MentionsTwo(text, "эссе", "курсовая");
  }

  lemma MentionsTwo(text: string, a: string, b: string)
    ensures MentionsAny(text, [a, b]) <==> Contains(text, a) || Contains(text, b)
  {
    var k := [a, b];
    assert k[0] == a && k[1..] == [b];
    assert [b][0] == b && [b][1..] == [];
    assert !MentionsAny(text, []);
    assert MentionsAny(text, [b]) <==> Contains(text, b);
  }

  /** The category of an already lower-cased task, checked in a fixed
      priority: exam, then essay, then project, else the general one. */
  function Classify(lowered: string): (c: Category)
    ensures c == Exam <==> MentionsAny(lowered, ExamKeywords)
    ensures c == Essay <==> !MentionsAny(lowered, ExamKeywords) && MentionsAny(lowered, EssayKeywords)
    ensures c == Project <==> !MentionsAny(lowered, ExamKeywords) && !MentionsAny(lowered, EssayKeywords)
                              && MentionsAny(lowered, ProjectKeywords)
  {
    MentionsKeywordLists(lowered);
    if Contains(lowered, "экзамен") || Contains(lowered, "подготовка") then Exam
    else if Contains(lowered, "реферат") || Contains(lowered, "эссе") || Contains(lowered, "курсовая") then Essay
    else if Contains(lowered, "проект") || Contains(lowered, "презентация") then Project
    else General
  }

  /** The classification rules as a priority table. */
  const Rules: seq<(Category, seq<string>)> := [(Exam, ExamKeywords), (Essay, EssayKeywords), (Project, ProjectKeywords)]

  /** Reference rule: the category of the first rule in the table with a
      matching keyword, or the general category when none matches. */
  function FirstMatch(rules: seq<(Category, seq<string>)>, text: string): Category
  {
    if rules == [] then General
    else if MentionsAny(text, rules[0].1) then rules[0].0
    else FirstMatch(rules[1..], text)
  }

  /** The classifier agrees with the priority table. */
  lemma ClassifyIsFirstMatch(lowered: string)
    ensures Classify(lowered) == FirstMatch(Rules, lowered)
  {
    var r := Rules;
    assert r[0] == (Exam, ExamKeywords);
    assert r[1..] == [(Essay, EssayKeywords), (Project, ProjectKeywords)];
    assert r[1..][0] == (Essay, EssayKeywords);
    assert r[1..][1..] == [(Project, ProjectKeywords)];
    assert r[1..][1..][0] == (Project, ProjectKeywords);
    assert r[1..][1..][1..] == [];
    var e, p := MentionsAny(lowered, ExamKeywords), MentionsAny(lowered, EssayKeywords);
    var q := MentionsAny(lowered, ProjectKeywords);
    assert FirstMatch(r[1..][1..], lowered) == if q then Project else General;
    assert FirstMatch(r[1..], lowered) == if p then Essay else if q then Project else General;
    assert FirstMatch(r, lowered) == if e then Exam else if p then Essay else if q then Project else General;
  }

  const ExamSteps: seq<string> := [
    "Собрать все материалы и конспекты по теме",
    "Составить список основных тем для изучения",
    "Изучить первую тему из списка (20-30 минут)",
    "Сделать краткий конспект изученного",
    "Решить 2-3 практических задания по теме",
    "Повторить ключевые моменты перед сном"
  ]

  const EssaySteps: seq<string> := [
    "Прочитать требования к работе",
    "Выбрать конкретную тему и утвердить её",
    "Найти 3-5 источников литературы",
    "Составить план работы (введение, главы, заключение)",
    "Написать введение (1-2 абзаца)",
    "Написать первую главу по плану",
    "Оформить список литературы",
    "Проверить работу на ошибки"
  ]

  const ProjectSteps: seq<string> := [
    "Определить цель и тему проекта",
    "Собрать необходимую информацию",
    "Создать структуру презентации (слайды)",
    "Заполнить титульный слайд",
    "Добавить содержание на первые 3 слайда",
    "Найти подходящие изображения или графики",
    "Прорепетировать выступление 1 раз"
  ]

  const GeneralSteps: seq<string> := [
    "Записать точную формулировку задачи",
    "Определить, что нужно для выполнения",
    "Выделить 15 минут на изучение задачи",
    "Сделать первый маленький шаг",
    "Продолжить работу короткими сессиями",
    "Отметить прогресс после каждого шага"
  ]

  function StepsFor(c: Category): seq<string>
  {
    match c
    case Exam => ExamSteps
    case Essay => EssaySteps
    case Project => ProjectSteps
    case General => GeneralSteps
  }

  /** `breakdownTask`: the step list of the task's category, matched on the
      lower-cased task.  Always one of the four fixed lists, of length 6,
      8, 7 or 6, and never empty. */
  function Breakdown(task: string): (steps: seq<string>)
    ensures steps == StepsFor(Classify(Lower(task)))
    ensures steps in {ExamSteps, EssaySteps, ProjectSteps, GeneralSteps}
    ensures 6 <= |steps| <= 8
    ensures steps == ExamSteps <==> MentionsAny(Lower(task), ExamKeywords)
    ensures |steps| == (match Classify(Lower(task)) case Exam => 6 case Essay => 8 case Project => 7 case General => 6)
  {
    var c := Classify(Lower(task));
    assert ExamSteps[0] != EssaySteps[0] && ExamSteps[0] != ProjectSteps[0] && ExamSteps[0] != GeneralSteps[0];
    StepsFor(c)
  }

  /** Upper- and lower-case spellings of a task break down alike. */
  lemma BreakdownIgnoresCase(task: string)
    ensures Breakdown(Lower(task)) == Breakdown(task)
  {
    LowerIdempotent(task);
  }

  /** One line of the checklist. */
  datatype SubTask = SubTask(id: string, text: string, completed: bool)

  /** The id of the step at `index`: `task-${index}`. */
  function TaskId(index: nat): string
  {
    "task-" + Decimal(index)
  }

  /** Distinct positions get distinct ids. */
  lemma TaskIdInjective(i: nat, j: nat)
    requires TaskId(i) == TaskId(j)
    ensures i == j
  {
    assert TaskId(i)[5..] == Decimal(i);
    assert TaskId(j)[5..] == Decimal(j);
    DecimalInjective(i, j);
  }

  /** The checklist for a list of steps: same order, ids `task-0` up to
      `task-(n-1)`, nothing ticked yet. */
  function Enumerate(steps: seq<string>): (ts: seq<SubTask>)
    ensures |ts| == |steps|
    ensures forall i :: 0 <= i < |ts| ==> ts[i] == SubTask(TaskId(i), steps[i], false)
  {
    seq(|steps|, i requires 0 <= i < |steps| => SubTask(TaskId(i), steps[i], false))
  }

  /** The ids of `ts` are pairwise distinct. */
  ghost predicate DistinctIds(ts: seq<SubTask>)
  {
    forall i, j :: 0 <= i < j < |ts| ==> ts[i].id != ts[j].id
  }

  lemma EnumerateDistinctIds(steps: seq<string>)
    ensures DistinctIds(Enumerate(steps))
  {
    var ts := Enumerate(steps);
    forall i, j | 0 <= i < j < |ts|
      ensures ts[i].id != ts[j].id
    {
      if ts[i].id == ts[j].id {
        TaskIdInjective(i, j);
      }
    }
  }

  datatype State = State(bigTask: string, subTasks: seq<SubTask>)

  const Initial: State := State("", [])

  /** "Разбить на маленькие шаги": nothing happens for a blank task;
      otherwise the checklist becomes the task's steps, enumerated. */
  function Generate(s: State): (t: State)
    ensures IsBlank(s.bigTask) ==> t == s
    ensures !IsBlank(s.bigTask) ==> t == s.(subTasks := Enumerate(Breakdown(s.bigTask)))
    ensures !IsBlank(s.bigTask) ==> 6 <= |t.subTasks| <= 8
  {
    if Trim(s.bigTask) == [] then s
    else s.(subTasks := Enumerate(Breakdown(s.bigTask)))
  }

  /** Ticking or unticking the step with the given id; every other step,
      and every other field, is kept. */
  function Toggle(ts: seq<SubTask>, id: string): (r: seq<SubTask>)
    ensures |r| == |ts|
    ensures forall i :: 0 <= i < |ts| ==>
              && r[i].id == ts[i].id && r[i].text == ts[i].text
              && (r[i].completed <==> (if ts[i].id == id then !ts[i].completed else ts[i].completed))
  {
    if ts == [] then []
    else
      var head := if ts[0].id == id then ts[0].(completed := !ts[0].completed) else ts[0];
      [head] + Toggle(ts[1..], id)
  }

  /** Toggling the same id twice restores the checklist. */
  lemma ToggleTwice(ts: seq<SubTask>, id: string)
    ensures Toggle(Toggle(ts, id), id) == ts
  {
  }

  /** Toggling an id that no step carries changes nothing. */
  lemma ToggleAbsent(ts: seq<SubTask>, id: string)
    requires forall i :: 0 <= i < |ts| ==> ts[i].id != id
    ensures Toggle(ts, id) == ts
  {
  }

  /** The checkbox handler: only the steps with the id flip their tick, and
      the task text is kept. */
  function ToggleStep(s: State, id: string): (t: State)
    ensures t.bigTask == s.bigTask && |t.subTasks| == |s.subTasks|
    ensures forall i :: 0 <= i < |s.subTasks| ==>
              && t.subTasks[i].id == s.subTasks[i].id && t.subTasks[i].text == s.subTasks[i].text
              && (t.subTasks[i].completed <==> (s.subTasks[i].completed != (s.subTasks[i].id == id)))
  {
    s.(subTasks := Toggle(s.subTasks, id))
  }

  /** "Разбить новую задачу": clear the task and the checklist. */
  function Reset(s: State): (t: State)
    ensures t == Initial
  {
    State("", [])
  }

  /** `completedCount`: how many steps are ticked. */
  function CompletedCount(ts: seq<SubTask>): (c: nat)
    ensures c <= |ts|
    ensures c == |ts| <==> forall i :: 0 <= i < |ts| ==> ts[i].completed
    ensures c == 0 <==> forall i :: 0 <= i < |ts| ==> !ts[i].completed
  {
    if ts == [] then 0
    else (if ts[0].completed then 1 else 0) + CompletedCount(ts[1..])
  }

  /** Counting works piecewise; with the single-step values the contract
      fixes, this makes the count the number of ticked steps. */
  lemma {:induction false} CompletedCountAppend(a: seq<SubTask>, b: seq<SubTask>)
    ensures CompletedCount(a + b) == CompletedCount(a) + CompletedCount(b)
    decreases |a|
  {
    if a == [] {
      assert a + b == b;
    } else {
      assert (a + b)[1..] == a[1..] + b;
      CompletedCountAppend(a[1..], b);
    }
  }

  /** `progress`: 0 for an empty checklist, otherwise the rounded percentage
      of ticked steps.  It is at most 100, and for checklists shorter than
      200 steps (generated ones have at most 8) it is 100 exactly when
      every step is ticked. */
  function Progress(ts: seq<SubTask>): (p: nat)
    ensures |ts| > 0 ==> Percent.IsRoundedPercent(CompletedCount(ts), |ts|, p)
    ensures p <= 100
    ensures ts == [] ==> p == 0
    ensures 0 < |ts| < 200 ==> (p == 100 <==> forall i :: 0 <= i < |ts| ==> ts[i].completed)
  {
    if |ts| > 0 then
      ProgressFacts(ts);
      Percent.RoundedPercent(CompletedCount(ts), |ts|)
    else 0
  }

  lemma ProgressFacts(ts: seq<SubTask>)
    requires |ts| > 0
    ensures Percent.RoundedPercent(CompletedCount(ts), |ts|) <= 100
    ensures |ts| < 200 ==>
              (Percent.RoundedPercent(CompletedCount(ts), |ts|) == 100 <==> CompletedCount(ts) == |ts|)
  {
    Percent.RoundedPercentAtMost100(CompletedCount(ts), |ts|);
    if |ts| < 200 {
      Percent.RoundedPercentFullIff(CompletedCount(ts), |ts|);
    }
  }

  /** Every checklist the component can reach has at most 8 steps, so its
      progress reads 100 exactly when every step is ticked. */
  ghost predicate Reachable(s: State)
  {
    |s.subTasks| <= 8
  }

  lemma ReachableStepsPreserved(s: State, id: string)
    requires Reachable(s)
    ensures Reachable(Generate(s)) && Reachable(ToggleStep(s, id)) && Reachable(Reset(s))
    ensures Reachable(Initial)
  {
  }

  /** A text with no upper-case letter is its own lower-case form. */
  lemma LowerOfLowerCase(s: string)
    requires forall i :: 0 <= i < |s| ==> !IsUpperCase(s[i])
    ensures Lower(s) == s
  {
  }

  /** A word with a character the text lacks does not occur in it. */
  lemma AbsentChar(text: string, w: string, k: nat)
    requires k < |w| && w[k] !in text
    ensures !Contains(text, w)
  {
    if Contains(text, w) {
      ContainsChars(text, w);
    }
  }

  /** The exam example of the component's hint text gets the exam plan
      (through "экзамен": "Подготовиться" is not "подготовка"). */
  lemma ExamExample(task: string)
    requires task == "Подготовиться к экзамену по истории"
    ensures Breakdown(task) == ExamSteps
  {
    var low := Lower(task);
    var w := "экзамен";
    assert task[16..23] == w;
    forall j | 0 <= j < 7
      ensures low[16..23][j] == w[j]
    {
      assert task[16 + j] == w[j] && !IsUpperCase(task[16 + j]);
    }
    assert low[16..23] == w;
    ContainsAt(low, w, 16);
    ExamWins(task);
  }

  /** A task whose lower-cased form mentions an exam gets the exam plan. */
  lemma ExamWins(task: string)
    requires Contains(Lower(task), "экзамен")
    ensures Breakdown(task) == ExamSteps
  {
    MentionsKeywordLists(Lower(task));
  }

  /** Text without any keyword gets the general plan. */
  lemma GeneralExample(task: string)
    requires task == "случайный текст"
    ensures Breakdown(task) == GeneralSteps
  {
    LowerOfLowerCase(task);
    NoKeywordByLetters(task);
  }

  /** Every keyword contains an `э`, a `п` or an `р`; a text without
      those letters falls into the general category. */
  lemma NoKeywordByLetters(text: string)
    requires 'э' !in text && 'п' !in text && 'р' !in text
    ensures Classify(text) == General
  {
    AbsentChar(text, "экзамен", 0);
    AbsentChar(text, "подготовка", 0);
    AbsentChar(text, "реферат", 0);
    AbsentChar(text, "эссе", 0);
    AbsentChar(text, "курсовая", 2);
    AbsentChar(text, "проект", 0);
    AbsentChar(text, "презентация", 0);
    MentionsKeywordLists(text);
  }

  /** The coursework example of the same hint text does not get the essay
      plan: "курсовую" is not the keyword "курсовая", and no other keyword
      occurs, so the general plan is returned. */
  lemma CourseworkHintIsGeneral(task: string)
    requires task == "Написать курсовую работу"
    ensures Breakdown(task) == GeneralSteps
  {
    CourseworkLowered(task);
    CourseworkHasNoKeyword(Lower(task));
  }

  /** Lower-casing the coursework example only changes its capital `Н`. */
  lemma CourseworkLowered(task: string)
    requires task == "Написать курсовую работу"
    ensures Lower(task) == "написать курсовую работу"
  {
    var low := Lower(task);
    forall i | 0 <= i < |low|
      ensures low[i] == (if i == 0 then 'н' else task[i])
    {
      if i > 0 {
        assert !IsUpperCase(task[i]);
      }
    }
  }

  /** The lower-cased coursework example lacks `э`, `е`, `д` and `я`, so it
      mentions no keyword. */
  lemma CourseworkHasNoKeyword(low: string)
    requires low == "написать курсовую работу"
    ensures Classify(low) == General
  {
    assert 'э' !in low;
    assert 'е' !in low;
    assert 'д' !in low;
    assert 'я' !in low;
    NoKeywordByOtherLetters(low);
  }

  /** Each keyword also contains an `э`, an `е`, a `д` or a `я`. */
  lemma NoKeywordByOtherLetters(text: string)
    requires 'э' !in text && 'е' !in text && 'д' !in text && 'я' !in text
    ensures Classify(text) == General
  {
    AbsentChar(text, "экзамен", 0);
    AbsentChar(text, "подготовка", 2);
    AbsentChar(text, "реферат", 1);
    AbsentChar(text, "эссе", 0);
    AbsentChar(text, "курсовая", 7);
    AbsentChar(text, "проект", 3);
    AbsentChar(text, "презентация", 2);
    MentionsKeywordLists(text);
  }
}
