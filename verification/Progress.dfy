/** Session progress: which steps are done or open, and how check results, answers and hints change
    that. Times and messages are left out; a time stamp is present or absent. */
module Progress {
  import opened Wrappers
  import opened Courses

  datatype TaskStatus = Pending | Running | Passed | Failed | Unavailable

  /** A JavaScript number that should count something; undefined and NaN are not numbers. */
  datatype Count = Num(n: int) | NotNumber

  function Plus1(c: Count): Count {
    if c.Num? then Num(c.n + 1) else NotNumber
  }

  function Max(c: Count, n: int): Count {
    if c.Num? then Num(if n > c.n then n else c.n) else NotNumber
  }

  datatype TaskState = TaskState(status: Option<TaskStatus>, failures: Count, hintTier: Count, answer: Option<string>)
  datatype StepProgress = StepProgress(started: bool, completed: bool, tasks: map<string, TaskState>)
  datatype Session = Session(courseId: Option<string>, stepId: Option<string>, steps: map<string, StepProgress>)

  const NEW_SESSION := Session(None, None, map[])
  const NEW_TASK := TaskState(Some(Pending), Num(0), Num(0), None)

  /** Ids that the id syntax accepts for tasks and that every JavaScript object inherits a property for;
      looked up in a table without such an entry, they give a function, which has none of the fields of
      a task state. */
  const INHERITED: set<string> :=
    {"constructor", "hasOwnProperty", "isPrototypeOf", "propertyIsEnumerable", "toLocaleString", "toString", "valueOf"}
  const INHERITED_TASK := TaskState(None, NotNumber, NotNumber, None)

  // ---------------------------------------------------------------- keys

  function StepKey(courseId: string, stepId: string): string {
    courseId + "/" + stepId
  }

  lemma ValidIdHasNoSlash(id: string)
    requires ValidId(id)
    ensures forall i :: 0 <= i < |id| ==> id[i] != '/'
  {}

  /** The id syntax makes keys unambiguous. */
  lemma KeysAreInjective(c1: string, s1: string, c2: string, s2: string)
    requires ValidId(c1) && ValidId(c2) && StepKey(c1, s1) == StepKey(c2, s2)
    ensures c1 == c2 && s1 == s2
  {
    var k1, k2 := StepKey(c1, s1), StepKey(c2, s2);
    ValidIdHasNoSlash(c1);
    ValidIdHasNoSlash(c2);
    assert k1[|c1|] == '/' && k2[|c2|] == '/';
    assert forall i :: 0 <= i < |c1| ==> k1[i] == c1[i] != '/';
    assert forall i :: 0 <= i < |c2| ==> k2[i] == c2[i] != '/';
    assert c1 == k1[..|c1|] && c2 == k2[..|c2|];
    assert s1 == k1[|c1| + 1..] && s2 == k2[|c2| + 1..];
  }

  // ---------------------------------------------------------------- reading

  function ProgressOf(s: Session, courseId: string, stepId: string): StepProgress {
    var key := StepKey(courseId, stepId);
    if key in s.steps then s.steps[key] else StepProgress(false, false, map[])
  }

  function TaskStateOf(p: StepProgress, taskId: string): TaskState {
    if taskId in p.tasks then p.tasks[taskId] else if taskId in INHERITED then INHERITED_TASK else NEW_TASK
  }

  /** Every task passed; a step without tasks counts as done once it was opened. */
  predicate IsStepDone(s: Session, step: Step) {
    var p := ProgressOf(s, step.courseId, step.id);
    if step.meta.tasks == [] then p.started
    else forall i :: 0 <= i < |step.meta.tasks| ==> TaskStateOf(p, step.meta.tasks[i]).status == Some(Passed)
  }

  predicate IsCourseDone(s: Session, c: Course) {
    OrderedSteps(c) != [] && forall step <- OrderedSteps(c) :: IsStepDone(s, step)
  }

  function FindCourse(all: seq<Course>, id: string): Option<Course> {
    if all == [] then None else if all[0].manifest.id == id then Some(all[0]) else FindCourse(all[1..], id)
  }

  predicate PrerequisiteMet(s: Session, all: seq<Course>, id: string) {
    var c := FindCourse(all, id);
    c.Some? ==> IsCourseDone(s, c.value)
  }

  predicate RequirementMet(s: Session, c: Course, id: string) {
    id in c.steps ==> IsStepDone(s, c.steps[id])
  }

  predicate IsStepUnlocked(s: Session, c: Course, step: Step, all: seq<Course>) {
    && (forall id <- c.manifest.prerequisites :: PrerequisiteMet(s, all, id))
    && (forall id <- step.meta.requirements :: RequirementMet(s, c, id))
  }

  // ---------------------------------------------------------------- changing

  function Ensured(s: Session, courseId: string, stepId: string): StepProgress {
    ProgressOf(s, courseId, stepId).(started := true)
  }

  function PutProgress(s: Session, courseId: string, stepId: string, p: StepProgress): Session {
    s.(steps := s.steps[StepKey(courseId, stepId) := p])
  }

  function WithStatus(prev: TaskState, status: TaskStatus): TaskState {
    prev.(status := Some(status),
          failures := if status == Failed then Plus1(prev.failures)
                      else if status == Passed then Num(0)
                      else prev.failures)
  }

  /** The session after a check result: its state, then the completion mark of its step. */
  function Recorded(s: Session, step: Step, taskId: string, status: TaskStatus): Session {
    var p := Ensured(s, step.courseId, step.id);
    var q := p.(tasks := p.tasks[taskId := WithStatus(TaskStateOf(p, taskId), status)]);
    var t := PutProgress(s, step.courseId, step.id, q);
    PutProgress(s, step.courseId, step.id, q.(completed := IsStepDone(t, step)))
  }

  function Answered(s: Session, courseId: string, stepId: string, taskId: string, answer: string): Session {
    var p := Ensured(s, courseId, stepId);
    PutProgress(s, courseId, stepId, p.(tasks := p.tasks[taskId := TaskStateOf(p, taskId).(answer := Some(answer))]))
  }

  function Hinted(s: Session, courseId: string, stepId: string, taskId: string, tier: int): Session {
    var p := Ensured(s, courseId, stepId);
    var prev := TaskStateOf(p, taskId);
    PutProgress(s, courseId, stepId,
                p.(tasks := p.tasks[taskId := prev.(hintTier := Max(prev.hintTier, tier))]))
  }

  function Opened(s: Session, courseId: string, stepId: string): Session {
    PutProgress(s, courseId, stepId, Ensured(s, courseId, stepId)).(courseId := Some(courseId), stepId := Some(stepId))
  }

  datatype Action =
    | Record(step: Step, taskId: string, status: TaskStatus)
    | Answer(step: Step, taskId: string, answer: string)
    | Hint(step: Step, taskId: string, tier: int)
    | Open(step: Step)

  function Act(s: Session, a: Action): Session {
    match a
    case Record(step, taskId, status) => Recorded(s, step, taskId, status)
    case Answer(step, taskId, answer) => Answered(s, step.courseId, step.id, taskId, answer)
    case Hint(step, taskId, tier) => Hinted(s, step.courseId, step.id, taskId, tier)
    case Open(step) => Opened(s, step.courseId, step.id)
  }

  function Play(history: seq<Action>): Session {
    if history == [] then NEW_SESSION else Act(Play(history[..|history| - 1]), history[|history| - 1])
  }

  // ---------------------------------------------------------------- courses together

  /** Courses as loaded: no course id twice. */
  ghost predicate Library(all: seq<Course>) {
    && (forall i :: 0 <= i < |all| ==> Loaded(all[i]))
    && (forall i, j :: 0 <= i < j < |all| ==> all[i].manifest.id != all[j].manifest.id)
  }

  /** A step of a loaded course. */
  predicate WellFormed(step: Step) {
    ValidId(step.courseId)
  }

  predicate SamePlace(x: Step, y: Step) {
    x.courseId == y.courseId && x.id == y.id
  }

  /** An action changes the progress of its own step only. */
  lemma OtherStepsUntouched(s: Session, a: Action, other: Step)
    requires WellFormed(a.step) && WellFormed(other) && !SamePlace(a.step, other)
    ensures ProgressOf(Act(s, a), other.courseId, other.id) == ProgressOf(s, other.courseId, other.id)
    ensures IsStepDone(Act(s, a), other) == IsStepDone(s, other)
  {
    if StepKey(a.step.courseId, a.step.id) == StepKey(other.courseId, other.id) {
      KeysAreInjective(a.step.courseId, a.step.id, other.courseId, other.id);
    }
  }

  /** The completion mark says whether the step is done, for every step with tasks. */
  predicate MarkGood(s: Session, step: Step) {
    step.meta.tasks != [] ==> (ProgressOf(s, step.courseId, step.id).completed <==> IsStepDone(s, step))
  }

  /** Steps with the same place are the same step: there is one library. */
  predicate Consistent(x: Step, y: Step) {
    SamePlace(x, y) ==> x == y
  }

  lemma ActKeepsMark(s: Session, a: Action, step: Step)
    requires WellFormed(a.step) && WellFormed(step) && Consistent(a.step, step) && MarkGood(s, step)
    ensures MarkGood(Act(s, a), step)
  {
    if !SamePlace(a.step, step) {
      OtherStepsUntouched(s, a, step);
    } else {
      var p, q := ProgressOf(s, step.courseId, step.id), ProgressOf(Act(s, a), step.courseId, step.id);
      match a {
        case Record(_, taskId, status) =>
        case _ =>
          assert forall t :: TaskStateOf(q, t).status == TaskStateOf(p, t).status;
      }
    }
  }

  /** A history in which steps come from one library: well-formed, and one step per place. */
  ghost predicate Orderly(history: seq<Action>, step: Step) {
    WellFormed(step) && forall a <- history :: WellFormed(a.step) && Consistent(a.step, step)
  }

  /** Over every history, a step with tasks bears the completion mark exactly if it is done. */
  lemma {:induction false} MarksAreGood(history: seq<Action>, step: Step)
    requires Orderly(history, step)
    ensures MarkGood(Play(history), step)
  {
    if history == [] {
      assert step.meta.tasks != [] ==>
        TaskStateOf(ProgressOf(NEW_SESSION, step.courseId, step.id), step.meta.tasks[0]).status != Some(Passed);
    } else {
      MarksAreGood(history[..|history| - 1], step);
      ActKeepsMark(Play(history[..|history| - 1]), history[|history| - 1], step);
    }
  }

  // ---------------------------------------------------------------- failures

  /** Failed results for a task since its last pass, read off the history. */
  function FailuresSince(history: seq<Action>, step: Step, taskId: string): nat {
    if history == [] then 0
    else
      var before := FailuresSince(history[..|history| - 1], step, taskId);
      var a := history[|history| - 1];
      if a.Record? && SamePlace(a.step, step) && a.taskId == taskId then
        (if a.status == Failed then before + 1 else if a.status == Passed then 0 else before)
      else before
  }

  predicate EverPassed(history: seq<Action>, step: Step, taskId: string) {
    exists a <- history :: a.Record? && SamePlace(a.step, step) && a.taskId == taskId && a.status == Passed
  }

  /** Over every history, the failure count of a task is the number of failed results since its last
      pass; answers, hints, re-opening and unavailable checks do not change it. For an inherited name
      this is so only from the first pass on, and before that there is no count. */
  lemma {:induction false} FailuresCounted(history: seq<Action>, step: Step, taskId: string)
    requires Orderly(history, step)
    ensures var failures := TaskStateOf(ProgressOf(Play(history), step.courseId, step.id), taskId).failures;
      && (failures == Num(FailuresSince(history, step, taskId)) <==>
        taskId !in INHERITED || EverPassed(history, step, taskId))
      && (failures == NotNumber <==> taskId in INHERITED && !EverPassed(history, step, taskId))
  {
    if history != [] {
      var init, a := history[..|history| - 1], history[|history| - 1];
      FailuresCounted(init, step, taskId);
      assert history == init + [a];
      if !SamePlace(a.step, step) {
        OtherStepsUntouched(Play(init), a, step);
      }
    }
  }

  /** The first failed result of a task called "constructor" leaves NaN instead of one failure. */
  lemma ConstructorIsNotCounted(step: Step)
    requires WellFormed(step)
    ensures ValidId("constructor")
    ensures var history := [Record(step, "constructor", Failed)];
      && Orderly(history, step) && FailuresSince(history, step, "constructor") == 1
      && TaskStateOf(ProgressOf(Play(history), step.courseId, step.id), "constructor").failures == NotNumber
  {
    var history := [Record(step, "constructor", Failed)];
    assert history[..0] == [];
    FailuresCounted(history, step, "constructor");
  }

  /** The highest tier of the hints shown for a task, read off the history. */
  function HighestTier(history: seq<Action>, step: Step, taskId: string): int {
    if history == [] then 0
    else
      var before := HighestTier(history[..|history| - 1], step, taskId);
      var a := history[|history| - 1];
      if a.Hint? && SamePlace(a.step, step) && a.taskId == taskId && a.tier > before then a.tier else before
  }

  /** Over every history, the hint tier of a task is the highest one shown, exactly for ids that are not
      inherited names. */
  lemma {:induction false} TierIsHighestExactly(history: seq<Action>, step: Step, taskId: string)
    requires Orderly(history, step)
    ensures var tier := TaskStateOf(ProgressOf(Play(history), step.courseId, step.id), taskId).hintTier;
      && (tier == Num(HighestTier(history, step, taskId)) <==> taskId !in INHERITED)
      && (tier == NotNumber <==> taskId in INHERITED)
  {
    if history != [] {
      var init, a := history[..|history| - 1], history[|history| - 1];
      TierIsHighestExactly(init, step, taskId);
      if !SamePlace(a.step, step) {
        OtherStepsUntouched(Play(init), a, step);
      }
    }
  }

  /** What no history takes away: started steps stay started, answers stay given, and a hint tier that
      is a number stays one and never drops. */
  ghost predicate NothingLost(before: Session, after: Session, courseId: string, stepId: string, taskId: string) {
    var p, q := ProgressOf(before, courseId, stepId), ProgressOf(after, courseId, stepId);
    var x, y := TaskStateOf(p, taskId), TaskStateOf(q, taskId);
    && (p.started ==> q.started) && (x.answer.Some? ==> y.answer.Some?)
    && (x.hintTier.Num? ==> y.hintTier.Num? && x.hintTier.n <= y.hintTier.n)
  }

  lemma {:induction false} HistoryLosesNothing(history: seq<Action>, n: nat, courseId: string, stepId: string,
    taskId: string)
    requires n <= |history|
    ensures NothingLost(Play(history[..n]), Play(history), courseId, stepId, taskId)
  {
    if n == |history| {
      assert history[..n] == history;
    } else {
      var init, a := history[..|history| - 1], history[|history| - 1];
      assert init[..n] == history[..n];
      HistoryLosesNothing(init, n, courseId, stepId, taskId);
      ActLosesNothing(Play(init), a, courseId, stepId, taskId);
    }
  }

  lemma ActLosesNothing(s: Session, a: Action, courseId: string, stepId: string, taskId: string)
    ensures NothingLost(s, Act(s, a), courseId, stepId, taskId)
  {}

  // ---------------------------------------------------------------- what a history says

  /** The last result recorded for a task. */
  function LastRecord(history: seq<Action>, step: Step, taskId: string): Option<TaskStatus> {
    if history == [] then None
    else
      var a := history[|history| - 1];
      if a.Record? && SamePlace(a.step, step) && a.taskId == taskId then Some(a.status)
      else LastRecord(history[..|history| - 1], step, taskId)
  }

  /** Some action names the step. */
  ghost predicate Visited(history: seq<Action>, step: Step) {
    exists a <- history :: SamePlace(a.step, step)
  }

  /** The step is done, going by the history alone. */
  ghost predicate DoneBy(history: seq<Action>, step: Step) {
    if step.meta.tasks == [] then Visited(history, step)
    else forall taskId <- step.meta.tasks :: LastRecord(history, step, taskId) == Some(Passed)
  }

  lemma {:induction false} StartedExactly(history: seq<Action>, step: Step)
    requires Orderly(history, step)
    ensures ProgressOf(Play(history), step.courseId, step.id).started <==> Visited(history, step)
  {
    if history != [] {
      var init, a := history[..|history| - 1], history[|history| - 1];
      StartedExactly(init, step);
      assert history == init + [a];
      if !SamePlace(a.step, step) {
        OtherStepsUntouched(Play(init), a, step);
      }
    }
  }

  /** The state of a task without any result may hold no result. */
  predicate StatusSays(s: Session, step: Step, taskId: string, last: Option<TaskStatus>) {
    var status := TaskStateOf(ProgressOf(s, step.courseId, step.id), taskId).status;
    if last.Some? then status == last else status.None? || status == Some(Pending)
  }

  lemma ActKeepsStatus(s: Session, a: Action, step: Step, taskId: string, last: Option<TaskStatus>)
    requires WellFormed(a.step) && WellFormed(step) && StatusSays(s, step, taskId, last)
    ensures StatusSays(Act(s, a), step, taskId,
                       if a.Record? && SamePlace(a.step, step) && a.taskId == taskId then Some(a.status) else last)
  {
    if !SamePlace(a.step, step) {
      OtherStepsUntouched(s, a, step);
    }
  }

  lemma {:induction false} StatusIsLastRecord(history: seq<Action>, step: Step, taskId: string)
    requires Orderly(history, step)
    ensures StatusSays(Play(history), step, taskId, LastRecord(history, step, taskId))
  {
    if history != [] {
      var init, a := history[..|history| - 1], history[|history| - 1];
      StatusIsLastRecord(init, step, taskId);
      ActKeepsStatus(Play(init), a, step, taskId, LastRecord(init, step, taskId));
    }
  }

  /** After every history, a step with tasks is done exactly if the last result of each of them is a pass,
      so a failed re-run opens it again; one without tasks, exactly if some action has named it. */
  lemma DoneExactly(history: seq<Action>, step: Step)
    requires Orderly(history, step)
    ensures step.meta.tasks != [] ==>
      (IsStepDone(Play(history), step) <==>
       forall taskId <- step.meta.tasks :: LastRecord(history, step, taskId) == Some(Passed))
    ensures step.meta.tasks == [] ==> (IsStepDone(Play(history), step) <==> Visited(history, step))
  {
    StartedExactly(history, step);
    forall i | 0 <= i < |step.meta.tasks|
      ensures step.meta.tasks[i] in step.meta.tasks
      ensures TaskStateOf(ProgressOf(Play(history), step.courseId, step.id), step.meta.tasks[i]).status == Some(Passed)
        <==> LastRecord(history, step, step.meta.tasks[i]) == Some(Passed)
    {
      StatusIsLastRecord(history, step, step.meta.tasks[i]);
    }
  }

  /** The last answer given to a task. */
  function LastAnswer(history: seq<Action>, step: Step, taskId: string): Option<string> {
    if history == [] then None
    else
      var a := history[|history| - 1];
      if a.Answer? && SamePlace(a.step, step) && a.taskId == taskId then Some(a.answer)
      else LastAnswer(history[..|history| - 1], step, taskId)
  }

  /** After every history, the answer kept for a task is the last one given. */
  lemma {:induction false} AnswerIsLast(history: seq<Action>, step: Step, taskId: string)
    requires Orderly(history, step)
    ensures TaskStateOf(ProgressOf(Play(history), step.courseId, step.id), taskId).answer ==
      LastAnswer(history, step, taskId)
  {
    if history != [] {
      var init, a := history[..|history| - 1], history[|history| - 1];
      AnswerIsLast(init, step, taskId);
      if !SamePlace(a.step, step) {
        OtherStepsUntouched(Play(init), a, step);
      }
    }
  }

  /** The step opened last. */
  function LastOpened(history: seq<Action>): Option<Step> {
    if history == [] then None
    else if history[|history| - 1].Open? then Some(history[|history| - 1].step)
    else LastOpened(history[..|history| - 1])
  }

  /** After every history, the session points at the step opened last. */
  lemma {:induction false} CurrentIsLastOpened(history: seq<Action>)
    ensures var s, last := Play(history), LastOpened(history);
      && s.courseId == (if last.Some? then Some(last.value.courseId) else None)
      && s.stepId == (if last.Some? then Some(last.value.id) else None)
  {
    if history != [] {
      CurrentIsLastOpened(history[..|history| - 1]);
    }
  }

  /** A history of steps of one library. */
  ghost predicate HistoryOf(history: seq<Action>, all: seq<Course>) {
    forall c <- all :: forall x <- OrderedSteps(c) :: Orderly(history, x)
  }

  /** A step is unlocked, going by the history alone: every course that is a prerequisite has steps and all
      of them are done, and so are the steps of its own course that it requires. */
  ghost predicate UnlockedBy(history: seq<Action>, c: Course, step: Step, all: seq<Course>) {
    && (forall d <- all :: d.manifest.id in c.manifest.prerequisites ==>
      OrderedSteps(d) != [] && forall x <- OrderedSteps(d) :: DoneBy(history, x))
    && (forall x <- OrderedSteps(c) :: x.id in step.meta.requirements ==> DoneBy(history, x))
  }

  lemma {:induction false} FindsTheCourse(all: seq<Course>, d: Course)
    requires Library(all) && d in all
    ensures FindCourse(all, d.manifest.id) == Some(d)
  {
    if all[0] != d {
      var i :| 0 <= i < |all| && all[i] == d;
      assert all[1..][i - 1] == d;
      FindsTheCourse(all[1..], d);
    }
  }

  lemma PrerequisiteExactly(history: seq<Action>, all: seq<Course>, id: string)
    requires Library(all) && HistoryOf(history, all)
    ensures PrerequisiteMet(Play(history), all, id) <==> forall d <- all :: d.manifest.id == id ==>
      (OrderedSteps(d) != [] && forall x <- OrderedSteps(d) :: DoneBy(history, x))
  {
    FoundCourse(all, id);
    forall d | d in all && d.manifest.id == id
      ensures FindCourse(all, id) == Some(d)
      ensures IsCourseDone(Play(history), d) <==>
        OrderedSteps(d) != [] && forall x <- OrderedSteps(d) :: DoneBy(history, x)
    {
      FindsTheCourse(all, d);
      forall x | x in OrderedSteps(d)
        ensures IsStepDone(Play(history), x) <==> DoneBy(history, x)
      {
        DoneExactly(history, x);
      }
    }
  }

  lemma RequirementExactly(history: seq<Action>, c: Course, id: string)
    requires Loaded(c) && forall x <- OrderedSteps(c) :: Orderly(history, x)
    ensures RequirementMet(Play(history), c, id) <==> forall x <- OrderedSteps(c) :: x.id == id ==> DoneBy(history, x)
  {
    forall x | x in OrderedSteps(c)
      ensures x.id in c.steps && c.steps[x.id] == x
    {
      LoadedStep(c, x);
    }
    if id in c.steps {
      TableStep(c, id);
      DoneExactly(history, c.steps[id]);
    }
  }

  /** After every history, a step is unlocked exactly if the history says so. */
  lemma UnlockedExactly(history: seq<Action>, c: Course, step: Step, all: seq<Course>)
    requires Library(all) && c in all && HistoryOf(history, all)
    ensures IsStepUnlocked(Play(history), c, step, all) <==> UnlockedBy(history, c, step, all)
  {
    forall id
      ensures PrerequisiteMet(Play(history), all, id) <==> forall d <- all :: d.manifest.id == id ==>
        (OrderedSteps(d) != [] && forall x <- OrderedSteps(d) :: DoneBy(history, x))
      ensures RequirementMet(Play(history), c, id) <==>
        forall x <- OrderedSteps(c) :: x.id == id ==> DoneBy(history, x)
    {
      PrerequisiteExactly(history, all, id);
      RequirementExactly(history, c, id);
    }
  }

  // ---------------------------------------------------------------- locks

  lemma {:induction false} FoundCourse(all: seq<Course>, id: string)
    ensures FindCourse(all, id).Some? ==>
      FindCourse(all, id).value in all && FindCourse(all, id).value.manifest.id == id
  {
    if all != [] {
      FoundCourse(all[1..], id);
    }
  }

  lemma LoadedStep(c: Course, step: Step)
    requires Loaded(c) && step in OrderedSteps(c)
    ensures WellFormed(step) && step.courseId == c.manifest.id && step.id in c.steps && c.steps[step.id] == step
  {
    OrderedStepsOnce(c);
  }

  lemma TableStep(c: Course, id: string)
    requires Loaded(c) && id in c.steps
    ensures c.steps[id] in OrderedSteps(c) && WellFormed(c.steps[id]) && c.steps[id].courseId == c.manifest.id &&
      c.steps[id].id == id
  {
    OrderedStepsOnce(c);
  }

  /** Passing a task undoes no step. */
  lemma PassKeepsDone(s: Session, step: Step, taskId: string, other: Step)
    requires WellFormed(step) && WellFormed(other) && Consistent(step, other) && IsStepDone(s, other)
    ensures IsStepDone(Recorded(s, step, taskId, Passed), other)
  {
    if !SamePlace(step, other) {
      OtherStepsUntouched(s, Record(step, taskId, Passed), other);
    }
  }

  lemma PassKeepsCourseDone(s: Session, step: Step, taskId: string, c: Course)
    requires Loaded(c) && WellFormed(step) && (step.courseId == c.manifest.id ==> step in OrderedSteps(c))
    requires IsCourseDone(s, c)
    ensures IsCourseDone(Recorded(s, step, taskId, Passed), c)
  {
    forall other | other in OrderedSteps(c)
      ensures IsStepDone(Recorded(s, step, taskId, Passed), other)
    {
      SameCourseConsistent(c, step, other);
      PassKeepsDone(s, step, taskId, other);
    }
  }

  lemma SameCourseConsistent(c: Course, step: Step, other: Step)
    requires Loaded(c) && other in OrderedSteps(c) && (step.courseId == c.manifest.id ==> step in OrderedSteps(c))
    ensures WellFormed(other) && Consistent(step, other)
  {
    LoadedStep(c, other);
    if SamePlace(step, other) {
      LoadedStep(c, step);
    }
  }

  /** The recorded step belongs to its course and to no other. */
  ghost predicate Belongs(all: seq<Course>, step: Step) {
    WellFormed(step) && forall c <- all :: step.courseId == c.manifest.id ==> step in OrderedSteps(c)
  }

  /** A pass never locks a step, in any course. */
  lemma PassNeverLocks(s: Session, all: seq<Course>, step: Step, taskId: string, c: Course, other: Step)
    requires Library(all) && Belongs(all, step) && c in all
    requires IsStepUnlocked(s, c, other, all)
    ensures IsStepUnlocked(Recorded(s, step, taskId, Passed), c, other, all)
  {
    forall id | id in c.manifest.prerequisites
      ensures PrerequisiteMet(Recorded(s, step, taskId, Passed), all, id)
    {
      FoundCourse(all, id);
      if FindCourse(all, id).Some? {
        PassKeepsCourseDone(s, step, taskId, FindCourse(all, id).value);
      }
    }
    forall id | id in other.meta.requirements
      ensures RequirementMet(Recorded(s, step, taskId, Passed), c, id)
    {
      if id in c.steps {
        TableStep(c, id);
        SameCourseConsistent(c, step, c.steps[id]);
        PassKeepsDone(s, step, taskId, c.steps[id]);
      }
    }
  }

  /** A course's doneness changes only through a step of its own. */
  lemma OtherCourseUntouched(s: Session, step: Step, taskId: string, status: TaskStatus, c: Course)
    requires Loaded(c) && WellFormed(step) && step.courseId != c.manifest.id
    ensures IsCourseDone(Recorded(s, step, taskId, status), c) == IsCourseDone(s, c)
  {
    forall other | other in OrderedSteps(c)
      ensures IsStepDone(Recorded(s, step, taskId, status), other) == IsStepDone(s, other)
    {
      LoadedStep(c, other);
      OtherStepsUntouched(s, Record(step, taskId, status), other);
    }
  }

  /** If a record unlocks a step of its course, the recorded step has just become done and the unlocked
      step requires it; a course that is its own prerequisite is excluded. */
  lemma UnlockingExplained(s: Session, all: seq<Course>, c: Course, step: Step, taskId: string, status: TaskStatus,
    other: Step)
    requires Library(all) && c in all && step in OrderedSteps(c) && c.manifest.id !in c.manifest.prerequisites
    requires !IsStepUnlocked(s, c, other, all) && IsStepUnlocked(Recorded(s, step, taskId, status), c, other, all)
    ensures step.id in other.meta.requirements
    ensures !IsStepDone(s, step) && IsStepDone(Recorded(s, step, taskId, status), step)
  {
    var t := Recorded(s, step, taskId, status);
    LoadedStep(c, step);
    forall id | id in c.manifest.prerequisites
      ensures PrerequisiteMet(s, all, id)
    {
      FoundCourse(all, id);
      assert PrerequisiteMet(t, all, id);
      if FindCourse(all, id).Some? {
        OtherCourseUntouched(s, step, taskId, status, FindCourse(all, id).value);
      }
    }
    var id :| id in other.meta.requirements && !RequirementMet(s, c, id);
    TableStep(c, id);
    assert RequirementMet(t, c, id);
    if id != step.id {
      OtherStepsUntouched(s, Record(step, taskId, status), c.steps[id]);
    }
  }

  // ---------------------------------------------------------------- the next open step

  function FirstOpen(s: Session, c: Course, all: seq<Course>, steps: seq<Step>): Option<Step> {
    if steps == [] then None
    else if !IsStepDone(s, steps[0]) && IsStepUnlocked(s, c, steps[0], all) then Some(steps[0])
    else FirstOpen(s, c, all, steps[1..])
  }

  /** The first step in authored order, after `stepId` if given, that is neither done nor locked. */
  function NextOpenStep(s: Session, c: Course, all: seq<Course>, stepId: string): Option<Step> {
    var steps := OrderedSteps(c);
    FirstOpen(s, c, all, if stepId == "" then steps else steps[IndexOf(steps, stepId) + 1..])
  }

  predicate Offered(s: Session, c: Course, all: seq<Course>, step: Step) {
    !IsStepDone(s, step) && IsStepUnlocked(s, c, step, all)
  }

  /** It is the first one, and there is none exactly if no step is on offer. */
  lemma {:induction false} FirstOpenIsFirst(s: Session, c: Course, all: seq<Course>, steps: seq<Step>) returns (i: nat)
    ensures i <= |steps| && forall k :: 0 <= k < i ==> !Offered(s, c, all, steps[k])
    ensures FirstOpen(s, c, all, steps) == if i < |steps| then Some(steps[i]) else None
    ensures i < |steps| ==> Offered(s, c, all, steps[i])
  {
    if steps == [] || Offered(s, c, all, steps[0]) {
      i := 0;
    } else {
      i := FirstOpenIsFirst(s, c, all, steps[1..]);
      i := i + 1;
    }
  }

  lemma NextFromIndex(s: Session, c: Course, all: seq<Course>, i: nat)
    requires Loaded(c) && i < |OrderedSteps(c)|
    ensures var steps := OrderedSteps(c); NextOpenStep(s, c, all, steps[i].id) == FirstOpen(s, c, all, steps[i + 1..])
  {
    var steps := OrderedSteps(c);
    OrderedStepsOnce(c);
    LoadedStep(c, steps[i]);
    StepIdNotEmpty(c, steps[i].id);
    assert IndexOf(steps, steps[i].id) == i;
  }

  predicate NoneOffered(s: Session, c: Course, all: seq<Course>, steps: seq<Step>) {
    forall k :: 0 <= k < |steps| ==> !Offered(s, c, all, steps[k])
  }

  lemma NoneFoundExactly(s: Session, c: Course, all: seq<Course>, steps: seq<Step>)
    ensures FirstOpen(s, c, all, steps).None? <==> NoneOffered(s, c, all, steps)
  {
    var i := FirstOpenIsFirst(s, c, all, steps);
  }

  /** It is described as wrapping around to the first open step. Exactly where it should do so, and finds
      nothing instead: some step up to and including the given one is on offer, and none behind it. */
  lemma MissedWrapExactly(s: Session, c: Course, all: seq<Course>, i: nat)
    requires Loaded(c) && i < |OrderedSteps(c)|
    ensures var steps := OrderedSteps(c);
      NextOpenStep(s, c, all, steps[i].id).None? && NextOpenStep(s, c, all, "").Some? <==>
        !NoneOffered(s, c, all, steps[..i + 1]) && NoneOffered(s, c, all, steps[i + 1..])
  {
    var steps := OrderedSteps(c);
    NextFromIndex(s, c, all, i);
    NoneFoundExactly(s, c, all, steps);
    NoneFoundExactly(s, c, all, steps[i + 1..]);
    OfferedSplit(s, c, all, steps[..i + 1], steps[i + 1..]);
    assert steps[..i + 1] + steps[i + 1..] == steps;
  }

  lemma OfferedSplit(s: Session, c: Course, all: seq<Course>, a: seq<Step>, b: seq<Step>)
    ensures NoneOffered(s, c, all, a + b) <==> NoneOffered(s, c, all, a) && NoneOffered(s, c, all, b)
  {
    assert forall k :: 0 <= k < |a| ==> (a + b)[k] == a[k];
    assert forall k :: 0 <= k < |b| ==> (a + b)[|a| + k] == b[k];
  }

  lemma StepIdNotEmpty(c: Course, id: string)
    requires Loaded(c) && id in c.steps
    ensures id != ""
  {}

  lemma FirstOpenFinds(s: Session, c: Course, all: seq<Course>, steps: seq<Step>)
    ensures var f := FirstOpen(s, c, all, steps);
      && (f.Some? ==> f.value in steps && !IsStepDone(s, f.value) && IsStepUnlocked(s, c, f.value, all))
      && (f.None? ==> forall x <- steps :: IsStepDone(s, x) || !IsStepUnlocked(s, c, x, all))
  {
    var i := FirstOpenIsFirst(s, c, all, steps);
    forall x | x in steps && i == |steps|
      ensures !Offered(s, c, all, x)
    {
      var k :| 0 <= k < |steps| && steps[k] == x;
    }
  }

  /** A ranking in which every step lies above the steps it requires: there is no cycle. */
  ghost predicate Ranked(c: Course, rank: map<string, nat>) {
    forall id <- c.steps :: id in rank &&
      forall r <- c.steps[id].meta.requirements :: r in c.steps ==> r in rank && rank[r] < rank[id]
  }

  ghost predicate PrerequisitesMet(s: Session, c: Course, all: seq<Course>) {
    forall id <- c.manifest.prerequisites :: PrerequisiteMet(s, all, id)
  }

  /** Below any undone step there is an undone step that is unlocked. */
  lemma {:induction false} UndoneLeadsToOpen(s: Session, c: Course, all: seq<Course>, rank: map<string, nat>,
    id: string)
    returns (open: Step)
    requires Loaded(c) && Ranked(c, rank) && PrerequisitesMet(s, c, all)
    requires id in c.steps && !IsStepDone(s, c.steps[id])
    ensures open in OrderedSteps(c) && !IsStepDone(s, open) && IsStepUnlocked(s, c, open, all)
    decreases rank[id]
  {
    TableStep(c, id);
    open := c.steps[id];
    if !IsStepUnlocked(s, c, open, all) {
      var r :| r in open.meta.requirements && !RequirementMet(s, c, r);
      open := UndoneLeadsToOpen(s, c, all, rank, r);
    }
  }

  /** No deadlock: while a step of an acyclic course is not done, nextOpenStep from the start finds an
      undone step that is unlocked. */
  lemma NextOpenStepExists(s: Session, c: Course, all: seq<Course>, rank: map<string, nat>)
    requires Loaded(c) && Ranked(c, rank) && PrerequisitesMet(s, c, all)
    ensures var next := NextOpenStep(s, c, all, "");
      && (next.Some? <==> exists x :: x in OrderedSteps(c) && !IsStepDone(s, x))
      && (next.Some? ==> next.value in OrderedSteps(c) && Offered(s, c, all, next.value))
  {
    FirstOpenFinds(s, c, all, OrderedSteps(c));
    if x :| x in OrderedSteps(c) && !IsStepDone(s, x) {
      LoadedStep(c, x);
      var open := UndoneLeadsToOpen(s, c, all, rank, x.id);
    }
  }

  /** Without assuming anything about cycles: if no step is offered although some is undone, every
      undone step requires another undone step, so the requirements run in a circle. */
  lemma DeadlockNeedsCycle(s: Session, c: Course, all: seq<Course>, x: Step)
    requires Loaded(c) && PrerequisitesMet(s, c, all) && NextOpenStep(s, c, all, "").None?
    requires x in OrderedSteps(c) && !IsStepDone(s, x)
    ensures exists y :: y in OrderedSteps(c) && y.id in x.meta.requirements && !IsStepDone(s, y)
  {
    FirstOpenFinds(s, c, all, OrderedSteps(c));
    var r :| r in x.meta.requirements && !RequirementMet(s, c, r);
    TableStep(c, r);
    assert c.steps[r] in OrderedSteps(c);
  }

  // ---------------------------------------------------------------- working through a course

  /** Pass the first n tasks of a step. */
  function PassTasks(s: Session, step: Step, n: nat): Session
    requires n <= |step.meta.tasks|
  {
    if n == 0 then s else Act(PassTasks(s, step, n - 1), Record(step, step.meta.tasks[n - 1], Passed))
  }

  /** Open a step and pass its tasks. */
  function Round(s: Session, step: Step): Session {
    PassTasks(Opened(s, step.courseId, step.id), step, |step.meta.tasks|)
  }

  /** The step has been opened and its first n tasks are passed. */
  ghost predicate PassedUpTo(s: Session, step: Step, n: nat)
    requires n <= |step.meta.tasks|
  {
    var p := ProgressOf(s, step.courseId, step.id);
    p.started && forall i :: 0 <= i < n ==> TaskStateOf(p, step.meta.tasks[i]).status == Some(Passed)
  }

  lemma {:induction false} PassTasksPasses(s: Session, step: Step, n: nat)
    requires n <= |step.meta.tasks| && ProgressOf(s, step.courseId, step.id).started
    ensures PassedUpTo(PassTasks(s, step, n), step, n)
  {
    if n > 0 {
      PassTasksPasses(s, step, n - 1);
      PassOneMore(PassTasks(s, step, n - 1), PassTasks(s, step, n), step, n);
    }
  }

  lemma PassOneMore(s: Session, t: Session, step: Step, n: nat)
    requires 0 < n <= |step.meta.tasks| && PassedUpTo(s, step, n - 1)
    requires t == Act(s, Record(step, step.meta.tasks[n - 1], Passed))
    ensures PassedUpTo(t, step, n)
  {}

  lemma {:induction false} PassTasksLeavesOthers(s: Session, step: Step, n: nat, other: Step)
    requires n <= |step.meta.tasks| && WellFormed(step) && WellFormed(other) && !SamePlace(step, other)
    ensures IsStepDone(PassTasks(s, step, n), other) == IsStepDone(s, other)
  {
    if n > 0 {
      var before, a := PassTasks(s, step, n - 1), Record(step, step.meta.tasks[n - 1], Passed);
      PassTasksLeavesOthers(s, step, n - 1, other);
      assert PassTasks(s, step, n) == Act(before, a);
      OtherStepsUntouched(before, a, other);
    }
  }

  /** A round makes its step done and changes no other step. */
  lemma RoundCompletes(s: Session, step: Step, other: Step)
    requires WellFormed(step) && WellFormed(other) && Consistent(step, other)
    ensures IsStepDone(Round(s, step), other) == (other == step || IsStepDone(s, other))
  {
    var begun := Opened(s, step.courseId, step.id);
    if other == step {
      PassTasksPasses(begun, step, |step.meta.tasks|);
    } else {
      PassTasksLeavesOthers(begun, step, |step.meta.tasks|, other);
      OtherStepsUntouched(s, Open(step), other);
    }
  }

  function Undone(s: Session, steps: seq<Step>): nat {
    if steps == [] then 0 else Undone(s, steps[1..]) + if IsStepDone(s, steps[0]) then 0 else 1
  }

  lemma {:induction false} UndoneNone(s: Session, steps: seq<Step>)
    ensures Undone(s, steps) == 0 <==> forall x <- steps :: IsStepDone(s, x)
  {
    if steps != [] {
      UndoneNone(s, steps[1..]);
      assert forall x :: x in steps <==> x == steps[0] || x in steps[1..];
    }
  }

  lemma {:induction false} RoundCounts(s: Session, step: Step, steps: seq<Step>)
    requires WellFormed(step) && !IsStepDone(s, step)
    requires forall x <- steps :: WellFormed(x) && Consistent(step, x)
    requires DistinctIds(steps)
    ensures Undone(Round(s, step), steps) == Undone(s, steps) - if step in steps then 1 else 0
  {
    if steps != [] {
      RoundCompletes(s, step, steps[0]);
      RoundCounts(s, step, steps[1..]);
      assert step in steps <==> step == steps[0] || step in steps[1..];
    }
  }

  /** A round keeps the prerequisite courses done. */
  lemma RoundKeepsPrerequisites(s: Session, c: Course, all: seq<Course>, step: Step)
    requires Library(all) && c in all && step in OrderedSteps(c) && PrerequisitesMet(s, c, all)
    ensures PrerequisitesMet(Round(s, step), c, all)
  {
    LoadedStep(c, step);
    forall id | id in c.manifest.prerequisites
      ensures PrerequisiteMet(Round(s, step), all, id)
    {
      FoundCourse(all, id);
      if FindCourse(all, id).Some? {
        var pre := FindCourse(all, id).value;
        forall x | x in OrderedSteps(pre)
          ensures IsStepDone(Round(s, step), x)
        {
          LoadedStep(pre, x);
          SameLibraryConsistent(all, c, pre, step, x);
          RoundCompletes(s, step, x);
        }
      }
    }
  }

  lemma SameLibraryConsistent(all: seq<Course>, c: Course, d: Course, x: Step, y: Step)
    requires Library(all) && c in all && d in all && x in OrderedSteps(c) && y in OrderedSteps(d)
    ensures Consistent(x, y)
  {
    LoadedStep(c, x);
    LoadedStep(d, y);
  }

  /** Opening the next open step and passing its tasks, again and again, finishes an acyclic course in
      exactly as many rounds as it had undone steps. */
  method WorkThrough(s: Session, c: Course, all: seq<Course>, ghost rank: map<string, nat>)
    returns (t: Session, rounds: nat)
    requires Library(all) && c in all && Ranked(c, rank) && PrerequisitesMet(s, c, all)
    ensures forall x <- OrderedSteps(c) :: IsStepDone(t, x)
    ensures rounds == Undone(s, OrderedSteps(c))
  {
    t, rounds := s, 0;
    ghost var steps := OrderedSteps(c);
    OrderedStepsOnce(c);
    while true
      invariant PrerequisitesMet(t, c, all)
      invariant rounds + Undone(t, steps) == Undone(s, steps)
      decreases Undone(t, steps)
    {
      NextOpenStepExists(t, c, all, rank);
      UndoneNone(t, steps);
      var next := NextOpenStep(t, c, all, "");
      if next.None? {
        return;
      }
      LoadedStep(c, next.value);
      forall x | x in steps
        ensures WellFormed(x) && Consistent(next.value, x)
      {
        LoadedStep(c, x);
      }
      RoundCounts(t, next.value, steps);
      RoundKeepsPrerequisites(t, c, all, next.value);
      t := Round(t, next.value);
      rounds := rounds + 1;
    }
  }

  // ---------------------------------------------------------------- the session object

  /** Steps in authored order, none twice. */
  ghost predicate InAuthoredOrder(c: Course, out: seq<Step>) {
    forall i, j :: 0 <= i < j < |out| ==> IndexOf(OrderedSteps(c), out[i].id) < IndexOf(OrderedSteps(c), out[j].id)
  }

  ghost predicate InOrderBelow(from: seq<Step>, out: seq<Step>, n: int) {
    && (forall i :: 0 <= i < |out| ==> IndexOf(from, out[i].id) < n)
    && (forall i, j :: 0 <= i < j < |out| ==> IndexOf(from, out[i].id) < IndexOf(from, out[j].id))
  }

  lemma NextInOrder(from: seq<Step>, out: seq<Step>, n: nat)
    requires DistinctIds(from) && n < |from| && InOrderBelow(from, out, n)
    ensures InOrderBelow(from, out + [from[n]], n + 1)
  {
    assert IndexOf(from, from[n].id) == n;
  }

  /** Recording a result for a step of the library keeps the history orderly. */
  lemma HistoryGrows(history: seq<Action>, all: seq<Course>, c: Course, a: Action)
    requires Library(all) && c in all && a.step in OrderedSteps(c) && HistoryOf(history, all)
    ensures HistoryOf(history + [a], all)
  {
    LoadedStep(c, a.step);
    forall d, x | d in all && x in OrderedSteps(d)
      ensures Orderly(history + [a], x)
    {
      SameLibraryConsistent(all, c, d, a.step, x);
    }
  }

  /** What a result has completed and unlocked, going by the history. */
  lemma RecordExplained(history: seq<Action>, all: seq<Course>, c: Course, a: Action)
    requires Library(all) && c in all && a.step in OrderedSteps(c) && HistoryOf(history, all)
    ensures IsStepDone(Play(history), a.step) <==> DoneBy(history, a.step)
    ensures IsStepDone(Play(history + [a]), a.step) <==> DoneBy(history + [a], a.step)
    ensures forall x :: IsStepUnlocked(Play(history), c, x, all) <==> UnlockedBy(history, c, x, all)
    ensures forall x :: IsStepUnlocked(Play(history + [a]), c, x, all) <==> UnlockedBy(history + [a], c, x, all)
  {
    HistoryGrows(history, all, c, a);
    DoneExactly(history, a.step);
    DoneExactly(history + [a], a.step);
    forall x
      ensures IsStepUnlocked(Play(history), c, x, all) <==> UnlockedBy(history, c, x, all)
      ensures IsStepUnlocked(Play(history + [a]), c, x, all) <==> UnlockedBy(history + [a], c, x, all)
    {
      UnlockedExactly(history, c, x, all);
      UnlockedExactly(history + [a], c, x, all);
    }
  }

  datatype RecordResult = RecordResult(state: TaskState, stepCompleted: bool, unlocked: seq<Step>)

  class SessionState {
    var courseId: Option<string>
    var stepId: Option<string>
    var steps: map<string, StepProgress>
    /** What has been done with the session since it was new. */
    ghost var history: seq<Action>

    function State(): Session
      reads this
    {
      Session(courseId, stepId, steps)
    }

    ghost predicate Valid()
      reads this
    {
      State() == Play(history)
    }

    constructor ()
      ensures State() == NEW_SESSION && Valid() && history == []
    {
      courseId, stepId, steps := None, None, map[];
      history := [];
    }

    /** The ids of the locked steps. */
    method LockedIds(c: Course, all: seq<Course>) returns (ids: set<string>)
      requires Loaded(c)
      ensures forall x <- OrderedSteps(c) :: x.id in ids <==> !IsStepUnlocked(State(), c, x, all)
    {
      ids := {};
      var from := OrderedSteps(c);
      OrderedStepsOnce(c);
      for i := 0 to |from|
        invariant forall k :: 0 <= k < i ==> (from[k].id in ids <==> !IsStepUnlocked(State(), c, from[k], all))
        invariant forall k :: i <= k < |from| ==> from[k].id !in ids
      {
        if !IsStepUnlocked(State(), c, from[i], all) {
          ids := ids + {from[i].id};
        }
      }
    }

    /** Those steps of the course that were locked and are not any more. */
    method NowUnlocked(c: Course, all: seq<Course>, lockedBefore: set<string>) returns (out: seq<Step>)
      requires Loaded(c)
      ensures forall x :: x in out <==>
        x in OrderedSteps(c) && x.id in lockedBefore && IsStepUnlocked(State(), c, x, all)
      ensures InAuthoredOrder(c, out)
    {
      out := [];
      var from := OrderedSteps(c);
      OrderedStepsOnce(c);
      for i := 0 to |from|
        invariant forall x :: x in out <==>
          x in from[..i] && x.id in lockedBefore && IsStepUnlocked(State(), c, x, all)
        invariant InOrderBelow(from, out, i)
      {
        if from[i].id in lockedBefore && IsStepUnlocked(State(), c, from[i], all) {
          NextInOrder(from, out, i);
          out := out + [from[i]];
        }
      }
      assert from[..|from|] == from;
    }

    method NextOpen(c: Course, all: seq<Course>, start: string) returns (out: Option<Step>)
      ensures out == NextOpenStep(State(), c, all, start)
    {
      var ordered := OrderedSteps(c);
      var i := if start == "" then 0 else IndexOf(ordered, start) + 1;
      ghost var from := ordered[i..];
      while i < |ordered|
        invariant i <= |ordered| && FirstOpen(State(), c, all, ordered[i..]) == FirstOpen(State(), c, all, from)
      {
        if !IsStepDone(State(), ordered[i]) && IsStepUnlocked(State(), c, ordered[i], all) {
          return Some(ordered[i]);
        }
        assert ordered[i..][1..] == ordered[i + 1..];
        i := i + 1;
      }
      out := None;
    }

    /** Put the new task state and the completion mark of its step. */
    method PutResult(step: Step, taskId: string, status: TaskStatus) returns (state: TaskState)
      modifies this`steps
      ensures State() == Recorded(old(State()), step, taskId, status)
      ensures state == TaskStateOf(ProgressOf(State(), step.courseId, step.id), taskId)
    {
      var key := StepKey(step.courseId, step.id);
      var progress := Ensured(State(), step.courseId, step.id);
      state := WithStatus(TaskStateOf(progress, taskId), status);
      progress := progress.(tasks := progress.tasks[taskId := state]);
      steps := steps[key := progress];
      var done := IsStepDone(State(), step);
      if done && !progress.completed {
        progress := progress.(completed := true);
      }
      if !done && progress.completed {
        progress := progress.(completed := false);
      }
      steps := steps[key := progress];
    }

    /** Record a check result; report whether it completed the step and which steps it unlocked. */
    method RecordTaskResult(c: Course, step: Step, taskId: string, status: TaskStatus, all: seq<Course>)
      returns (r: RecordResult)
      requires Valid() && Library(all) && c in all && step in OrderedSteps(c)
      modifies this`steps, this`history
      ensures Valid() && history == old(history) + [Record(step, taskId, status)]
      ensures State() == Recorded(old(State()), step, taskId, status) && r.state.status == Some(status)
      ensures r.state == TaskStateOf(ProgressOf(State(), step.courseId, step.id), taskId)
      ensures HistoryOf(old(history), all) ==>
        (r.stepCompleted <==> DoneBy(history, step) && !DoneBy(old(history), step))
      ensures HistoryOf(old(history), all) ==> forall x :: x in r.unlocked <==>
        x in OrderedSteps(c) && !UnlockedBy(old(history), c, x, all) && UnlockedBy(history, c, x, all)
      ensures r.stepCompleted <==> IsStepDone(State(), step) && !IsStepDone(old(State()), step)
      ensures forall x :: x in r.unlocked <==>
        x in OrderedSteps(c) && !IsStepUnlocked(old(State()), c, x, all) && IsStepUnlocked(State(), c, x, all)
      ensures InAuthoredOrder(c, r.unlocked)
      ensures c.manifest.id !in c.manifest.prerequisites ==>
        forall x <- r.unlocked :: r.stepCompleted && step.id in x.meta.requirements
    {
      ghost var before, a := State(), Record(step, taskId, status);
      var wasDone := IsStepDone(State(), step);
      var lockedBefore := LockedIds(c, all);
      var state := PutResult(step, taskId, status);
      var unlocked := NowUnlocked(c, all, lockedBefore);
      r := RecordResult(state, IsStepDone(State(), step) && !wasDone, unlocked);
      if c.manifest.id !in c.manifest.prerequisites {
        forall x | x in unlocked
          ensures r.stepCompleted && step.id in x.meta.requirements
        {
          UnlockingExplained(before, all, c, step, taskId, status, x);
        }
      }
      PlaySnoc(history, a);
      if HistoryOf(history, all) {
        RecordExplained(history, all, c, a);
      }
      history := history + [a];
    }

    method SetAnswer(course: string, step: string, taskId: string, answer: string, ghost of: Step)
      requires Valid() && of.courseId == course && of.id == step
      modifies this`steps, this`history
      ensures Valid() && history == old(history) + [Answer(of, taskId, answer)]
      ensures State() == Answered(old(State()), course, step, taskId, answer)
      ensures TaskStateOf(ProgressOf(State(), course, step), taskId).answer == Some(answer)
      ensures ProgressOf(State(), course, step).started
    {
      var p := Ensured(State(), course, step);
      var prev := TaskStateOf(p, taskId);
      steps := steps[StepKey(course, step) := p.(tasks := p.tasks[taskId := prev.(answer := Some(answer))])];
      PlaySnoc(history, Answer(of, taskId, answer));
      history := history + [Answer(of, taskId, answer)];
    }

    method SetHintTier(course: string, step: string, taskId: string, tier: int, ghost of: Step)
      requires Valid() && of.courseId == course && of.id == step
      modifies this`steps, this`history
      ensures Valid() && history == old(history) + [Hint(of, taskId, tier)]
      ensures State() == Hinted(old(State()), course, step, taskId, tier)
      ensures ProgressOf(State(), course, step).started
    {
      var p := Ensured(State(), course, step);
      var prev := TaskStateOf(p, taskId);
      steps := steps[StepKey(course, step) := p.(tasks := p.tasks[taskId := prev.(hintTier := Max(prev.hintTier,
        tier))])];
      PlaySnoc(history, Hint(of, taskId, tier));
      history := history + [Hint(of, taskId, tier)];
    }

    method SetCurrentStep(course: string, step: string, ghost of: Step)
      requires Valid() && of.courseId == course && of.id == step
      modifies this
      ensures Valid() && history == old(history) + [Open(of)]
      ensures State() == Opened(old(State()), course, step)
      ensures courseId == Some(course) && stepId == Some(step) && ProgressOf(State(), course, step).started
    {
      courseId, stepId := Some(course), Some(step);
      steps := steps[StepKey(course, step) := Ensured(State(), course, step)];
      PlaySnoc(history, Open(of));
      history := history + [Open(of)];
    }
  }

  lemma PlaySnoc(history: seq<Action>, a: Action)
    ensures Play(history + [a]) == Act(Play(history), a)
  {
    assert (history + [a])[..|history|] == history;
  }
}
