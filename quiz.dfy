/** The exam session engine of the quiz screen (app/quiz.tsx): one attempt at a test in
    timed or practice mode, its answer and navigation rules, the one-second countdown and
    the scoring pass that builds the `TestResult`. */
module Quiz {
  import opened Wrappers
  import opened Text
  import opened QuestionBank
  import opened History
  import Seqs

  /** A question slot: `null` (not answered) or the index of the chosen option. The index
      is whatever the option list passed in; it is not bounds-checked. */
  datatype Slot = Unanswered | Answered(choice: int)

  /** `q.options[i]?.correct`: an index with no option behind it is not correct. */
  predicate OptionIsCorrect(q: Question, i: int)
  {
    0 <= i < |q.options| && q.options[i].correct
  }

  datatype Verdict = Right | Wrong | Skipped

  /** The three branches of the scoring pass for one slot. */
  function Classify(q: Question, a: Slot): Verdict
  {
    match a
    case Unanswered => Skipped
    case Answered(i) => if OptionIsCorrect(q, i) then Right else Wrong
  }

  datatype Tally = Tally(correct: nat, incorrect: nat, unanswered: nat)

  function Add(t: Tally, v: Verdict): Tally
  {
    match v
    case Right => t.(correct := t.correct + 1)
    case Wrong => t.(incorrect := t.incorrect + 1)
    case Skipped => t.(unanswered := t.unanswered + 1)
  }

  /** The counters after the scoring pass has visited every question of `qs`. */
  function TallyOf(qs: seq<Question>, ans: seq<Slot>): Tally
    requires |qs| == |ans|
    decreases |qs|
  {
    if qs == [] then Tally(0, 0, 0)
    else Add(TallyOf(qs[..|qs| - 1], ans[..|ans| - 1]), Classify(qs[|qs| - 1], ans[|ans| - 1]))
  }

  /** Every slot is classified exactly once. */
  lemma {:induction false} TallyTotal(qs: seq<Question>, ans: seq<Slot>)
    requires |qs| == |ans|
    ensures var t := TallyOf(qs, ans); t.correct + t.incorrect + t.unanswered == |qs|
    decreases |qs|
  {
    if qs != [] {
      TallyTotal(qs[..|qs| - 1], ans[..|ans| - 1]);
    }
  }

  /** The `forEach` loop of `finalizeSubmit`. */
  method CountAnswers(qs: seq<Question>, ans: seq<Slot>) returns (correct: nat, incorrect: nat, unanswered: nat)
    requires |qs| == |ans|
    ensures Tally(correct, incorrect, unanswered) == TallyOf(qs, ans)
  {
    correct, incorrect, unanswered := 0, 0, 0;
    for i := 0 to |qs|
      invariant Tally(correct, incorrect, unanswered) == TallyOf(qs[..i], ans[..i])
    {
      assert qs[..i + 1][..i] == qs[..i] && ans[..i + 1][..i] == ans[..i];
      match ans[i] {
        case Unanswered =>
          unanswered := unanswered + 1;
        case Answered(k) =>
          if OptionIsCorrect(qs[i], k) {
            correct := correct + 1;
          } else {
            incorrect := incorrect + 1;
          }
      }
    }
    assert qs[..|qs|] == qs && ans[..|ans|] == ans;
  }

  /** `answers.filter(a => a === null).length`, the count in the manual-submit warning. */
  function UnansweredCount(ans: seq<Slot>): nat
  {
    |Seqs.Filter(ans, (a: Slot) => a.Unanswered?)|
  }

  /** The warning shown before a manual submission counts the same slots the scoring pass
      counts as unanswered. */
  lemma {:induction false} UnansweredCountAgrees(qs: seq<Question>, ans: seq<Slot>)
    requires |qs| == |ans|
    ensures UnansweredCount(ans) == TallyOf(qs, ans).unanswered
    decreases |qs|
  {
    if qs != [] {
      UnansweredCountAgrees(qs[..|qs| - 1], ans[..|ans| - 1]);
    }
  }

  const DefaultDuration: nat := 210

  /** `test?.duration || 210`: a zero duration falls back to the default. */
  function DurationMinutes(t: Test): (m: nat)
    ensures m > 0
    ensures t.duration > 0 ==> m == t.duration
    ensures t.duration == 0 ==> m == DefaultDuration
  {
    if t.duration == 0 then DefaultDuration else t.duration
  }

  /** The countdown's starting value. */
  function InitialSeconds(t: Test): nat
  {
    DurationMinutes(t) * 60
  }

  /** `total > 0 ? (correct / total) * 100 : 0`. */
  function Percentage(correct: nat, total: nat): real
  {
    if total > 0 then (correct as real / total as real) * 100.0 else 0.0
  }

  /** The record `finalizeSubmit` builds and saves. `id` and `date` come from the clock and
      the random generator and are passed in. */
  function Summarize(test: Test, mode: Mode, ans: seq<Slot>, timeRemaining: int, id: string, date: string)
    : TestResult
    requires |ans| == |test.questions|
  {
    var t := TallyOf(test.questions, ans);
    var n := |test.questions|;
    TestResult(
      id, test.id, test.name, mode,
      t.correct * 4 - t.incorrect, n * 4, Percentage(t.correct, n),
      t.correct, t.incorrect, t.unanswered,
      date, InitialSeconds(test) - timeRemaining)
  }

  /** What a saved result promises: its counts cover every question once, the score follows
      the +4 / -1 / 0 scheme and lies between -n and the maximum 4n, the percentage lies in
      [0, 100] and is 100 exactly when every question is right, and the time spent lies
      between zero and the full duration. */
  lemma ResultBounds(test: Test, mode: Mode, ans: seq<Slot>, timeRemaining: int, id: string, date: string)
    requires |ans| == |test.questions|
    requires 0 <= timeRemaining <= InitialSeconds(test)
    ensures var r := Summarize(test, mode, ans, timeRemaining, id, date);
      var n := |test.questions|;
      && r.correct + r.incorrect + r.unanswered == n
      && r.score == 4 * r.correct - r.incorrect
      && r.total == 4 * n
      && -n <= r.score <= r.total
      && 0.0 <= r.percentage <= 100.0
      && (n > 0 ==> (r.percentage == 100.0 <==> r.correct == n))
      && 0 <= r.timeSpent <= InitialSeconds(test)
  {
    TallyTotal(test.questions, ans);
    var t := TallyOf(test.questions, ans);
    var n := |test.questions|;
    if n > 0 {
      PercentageBounds(t.correct, n);
    }
  }

  lemma PercentageBounds(c: nat, n: nat)
    requires 0 < n && c <= n
    ensures 0.0 <= Percentage(c, n) <= 100.0
    ensures Percentage(c, n) == 100.0 <==> c == n
  {
    var q := c as real / n as real;
    assert q * n as real == c as real;
    assert q <= 1.0;
    assert q == 1.0 <==> c == n;
  }

  /** The scoring example of the marking scheme: five questions, the first two right, the
      third wrong, the last two skipped. */
  lemma FiveQuestionExample(right: QuestionOption, wrong: QuestionOption)
    requires right.correct && !wrong.correct
    ensures
      var q := Question(0, "", [right, wrong], "", "");
      var test := Test("t", "T", 5, 0, [q, q, q, q, q]);
      var ans := [Answered(0), Answered(0), Answered(1), Unanswered, Unanswered];
      var r := Summarize(test, Timed, ans, 100, "", "");
      && r.correct == 2 && r.incorrect == 1 && r.unanswered == 2
      && r.score == 7 && r.total == 20 && r.percentage == 40.0
  {
    var q := Question(0, "", [right, wrong], "", "");
    var qs := [q, q, q, q, q];
    var ans := [Answered(0), Answered(0), Answered(1), Unanswered, Unanswered];
    assert qs[..0] == [] && ans[..0] == [];
    assert qs[..1][..0] == [] && ans[..1][..0] == [];
    assert TallyOf(qs[..1], ans[..1]) == Tally(1, 0, 0);
    assert qs[..2][..1] == qs[..1] && ans[..2][..1] == ans[..1];
    assert TallyOf(qs[..2], ans[..2]) == Tally(2, 0, 0);
    assert qs[..3][..2] == qs[..2] && ans[..3][..2] == ans[..2];
    assert TallyOf(qs[..3], ans[..3]) == Tally(2, 1, 0);
    assert qs[..4][..3] == qs[..3] && ans[..4][..3] == ans[..3];
    assert TallyOf(qs[..4], ans[..4]) == Tally(2, 1, 1);
    assert qs[..4] == qs[..|qs| - 1] && ans[..4] == ans[..|ans| - 1];
    assert TallyOf(qs, ans) == Tally(2, 1, 2);
  }

  /** Whether `selectAnswer` ignores the click: a submitted timed session, or a practice
      slot that is already answered. */
  predicate SlotLocked(mode: Mode, submitted: bool, slot: Slot)
  {
    (mode == Timed && submitted) || (mode == Practice && slot != Unanswered)
  }

  /** The answers after `selectAnswer(choice)` on question `index`. */
  function Select(mode: Mode, submitted: bool, ans: seq<Slot>, index: nat, choice: int): (r: seq<Slot>)
    requires index < |ans|
    ensures |r| == |ans|
    ensures forall j :: 0 <= j < |ans| && j != index ==> r[j] == ans[j]
    ensures r[index] == if SlotLocked(mode, submitted, ans[index]) then ans[index] else Answered(choice)
  {
    if SlotLocked(mode, submitted, ans[index]) then ans else ans[index := Answered(choice)]
  }

  /** Clicking `choices` one after another on the same question. */
  function SelectAll(mode: Mode, submitted: bool, ans: seq<Slot>, index: nat, choices: seq<int>): (r: seq<Slot>)
    requires index < |ans|
    ensures |r| == |ans|
    decreases |choices|
  {
    if choices == [] then ans
    else SelectAll(mode, submitted, Select(mode, submitted, ans, index, choices[0]), index, choices[1..])
  }

  /** Practice mode is single-shot: on an unanswered question the first click sticks, and an
      answered one never changes. */
  lemma {:induction false} PracticeFirstChoiceSticks(ans: seq<Slot>, index: nat, choices: seq<int>, submitted: bool)
    requires index < |ans|
    ensures var r := SelectAll(Practice, submitted, ans, index, choices);
      r[index] == (if ans[index] == Unanswered && choices != [] then Answered(choices[0]) else ans[index])
    decreases |choices|
  {
    if choices != [] {
      var a1 := Select(Practice, submitted, ans, index, choices[0]);
      PracticeFirstChoiceSticks(a1, index, choices[1..], submitted);
    }
  }

  /** Timed mode before submission lets a slot be overwritten any number of times: the last
      click wins. */
  lemma {:induction false} TimedLastChoiceWins(ans: seq<Slot>, index: nat, choices: seq<int>)
    requires index < |ans| && choices != []
    ensures SelectAll(Timed, false, ans, index, choices)[index] == Answered(choices[|choices| - 1])
    decreases |choices|
  {
    var a1 := Select(Timed, false, ans, index, choices[0]);
    if |choices| > 1 {
      TimedLastChoiceWins(a1, index, choices[1..]);
    }
  }

  /** After submission a timed session ignores every click. */
  lemma {:induction false} SubmittedTimedIgnoresClicks(ans: seq<Slot>, index: nat, choices: seq<int>)
    requires index < |ans|
    ensures SelectAll(Timed, true, ans, index, choices) == ans
    decreases |choices|
  {
    if choices != [] {
      SubmittedTimedIgnoresClicks(ans, index, choices[1..]);
    }
  }

  /** `goNext`: advances unless on the last question. */
  function NextIndex(i: nat, n: nat): nat
  {
    if i < n - 1 then i + 1 else i
  }

  /** `goPrev`: steps back unless on the first question. */
  function PrevIndex(i: nat): nat
  {
    if i > 0 then i - 1 else i
  }

  function NextTimes(i: nat, n: nat, k: nat): nat
    decreases k
  {
    if k == 0 then i else NextTimes(NextIndex(i, n), n, k - 1)
  }

  /** Pressing Next `k` times moves `k` questions on and stops at the last question; the
      position never leaves `[0, n)`. */
  lemma {:induction false} NextTimesClamps(i: nat, n: nat, k: nat)
    requires i < n
    ensures NextTimes(i, n, k) == Min(i + k, n - 1)
    decreases k
  {
    if k > 0 {
      NextTimesClamps(NextIndex(i, n), n, k - 1);
    }
  }

  /** One second of the countdown: values above 1 go down by one, anything else goes to 0
      (and submits). */
  function TickValue(t: int): int
  {
    if t <= 1 then 0 else t - 1
  }

  function Countdown(t: int, k: nat): int
    decreases k
  {
    if k == 0 then t else Countdown(TickValue(t), k - 1)
  }

  /** From `t` seconds the countdown shows `t - k` after `k` ticks and never goes below 0. */
  lemma {:induction false} CountdownValue(t: nat, k: nat)
    ensures Countdown(t, k) == if k <= t then t - k else 0
    decreases k
  {
    if k > 0 {
      CountdownValue(TickValue(t), k - 1);
    }
  }

  /** The tick that submits is the `t`-th one: before it the value is above 1. */
  lemma ExpiresOnTick(t: nat, k: nat)
    requires 1 <= k <= t
    ensures Countdown(t, k - 1) <= 1 <==> k == t
  {
    CountdownValue(t, k - 1);
  }

  /** One attempt. The answer and mark lists are reassigned whole, as the screen's state
      setters do. */
  class Session {
    const test: Test
    const mode: Mode
    var currentIndex: nat
    var answers: seq<Slot>
    var marked: seq<bool>
    var submitted: bool
    var timeRemaining: int

    ghost predicate Valid()
      reads this
    {
      && |answers| == |test.questions|
      && |marked| == |test.questions|
      && (currentIndex < |test.questions| || currentIndex == 0)
      && 0 <= timeRemaining <= InitialSeconds(test)
    }

    /** The initial state of the screen: all slots empty, no marks, first question, full
        time on the clock. */
    constructor (test: Test, mode: Mode)
      ensures Valid()
      ensures this.test == test && this.mode == mode
      ensures currentIndex == 0 && !submitted && timeRemaining == InitialSeconds(test)
      ensures forall i :: 0 <= i < |answers| ==> answers[i] == Unanswered
      ensures forall i :: 0 <= i < |marked| ==> !marked[i]
    {
      this.test := test;
      this.mode := mode;
      currentIndex := 0;
      answers := seq(|test.questions|, _ => Unanswered);
      marked := seq(|test.questions|, _ => false);
      submitted := false;
      timeRemaining := InitialSeconds(test);
    }

    method SelectAnswer(choice: int)
      requires Valid() && test.questions != []
      modifies this
      ensures Valid()
      ensures answers == Select(mode, submitted, old(answers), currentIndex, choice)
      ensures currentIndex == old(currentIndex) && marked == old(marked)
      ensures submitted == old(submitted) && timeRemaining == old(timeRemaining)
    {
      if mode == Timed && submitted {
        return;
      }
      if mode == Practice && answers[currentIndex] != Unanswered {
        return;
      }
      answers := answers[currentIndex := Answered(choice)];
    }

    /** `goToQuestion` from the navigation grid, which offers only existing questions. */
    method GoToQuestion(index: nat)
      requires Valid() && index < |test.questions|
      modifies this
      ensures Valid()
      ensures currentIndex == index
      ensures answers == old(answers) && marked == old(marked)
      ensures submitted == old(submitted) && timeRemaining == old(timeRemaining)
    {
      currentIndex := index;
    }

    method GoNext()
      requires Valid()
      modifies this
      ensures Valid()
      ensures currentIndex == NextIndex(old(currentIndex), |test.questions|)
      ensures answers == old(answers) && marked == old(marked)
      ensures submitted == old(submitted) && timeRemaining == old(timeRemaining)
    {
      if currentIndex < |test.questions| - 1 {
        currentIndex := currentIndex + 1;
      }
    }

    method GoPrev()
      requires Valid()
      modifies this
      ensures Valid()
      ensures currentIndex == PrevIndex(old(currentIndex))
      ensures answers == old(answers) && marked == old(marked)
      ensures submitted == old(submitted) && timeRemaining == old(timeRemaining)
    {
      if currentIndex > 0 {
        currentIndex := currentIndex - 1;
      }
    }

    /** Flips the current question's mark; allowed after submission too. */
    method ToggleMark()
      requires Valid() && test.questions != []
      modifies this
      ensures Valid()
      ensures marked == old(marked)[currentIndex := !old(marked)[currentIndex]]
      ensures currentIndex == old(currentIndex) && answers == old(answers)
      ensures submitted == old(submitted) && timeRemaining == old(timeRemaining)
    {
      marked := marked[currentIndex := !marked[currentIndex]];
    }

    /** `finalizeSubmit`: stops the clock (a submitted session no longer ticks), scores the
        current answers, saves the result to the history `store` and returns it. It does
        not check whether the session was already submitted. */
    method Finalize(store: HistoryStore, readOk: bool, writeOk: bool, id: string, date: string)
      returns (r: TestResult)
      requires Valid()
      modifies this, store
      ensures Valid() && submitted
      ensures r == Summarize(test, mode, answers, timeRemaining, id, date)
      ensures store.cell == AfterSave(old(store.cell), r, readOk, writeOk)
      ensures currentIndex == old(currentIndex) && answers == old(answers) && marked == old(marked)
      ensures timeRemaining == old(timeRemaining)
    {
      submitted := true;
      var correct, incorrect, unanswered := CountAnswers(test.questions, answers);
      var total := |test.questions|;
      var score := (correct as int) * 4 - incorrect;
      var percentage := if total > 0 then (correct as real / total as real) * 100.0 else 0.0;
      var timeSpent := InitialSeconds(test) - timeRemaining;
      r := TestResult(id, test.id, test.name, mode, score, total * 4, percentage,
                      correct, incorrect, unanswered, date, timeSpent);
      store.SaveTestResult(r, readOk, writeOk);
    }

    /** `handleSubmit(false)` from the Submit button, shown in timed mode only. The warning
        carries the number of empty slots; `confirm` is the user's answer to the dialog, and
        cancelling leaves the session and the history as they were. */
    method Submit(confirm: bool, store: HistoryStore, readOk: bool, writeOk: bool, id: string, date: string)
      returns (warning: nat, r: Option<TestResult>)
      requires Valid() && mode == Timed
      modifies this, store
      ensures Valid()
      ensures warning == UnansweredCount(old(answers))
      ensures !confirm ==> r == None && submitted == old(submitted) && store.cell == old(store.cell)
      ensures confirm ==> submitted && r == Some(Summarize(test, mode, answers, timeRemaining, id, date))
      ensures confirm ==> store.cell == AfterSave(old(store.cell), r.value, readOk, writeOk)
      ensures currentIndex == old(currentIndex) && answers == old(answers) && marked == old(marked)
      ensures timeRemaining == old(timeRemaining)
    {
      warning := UnansweredCount(answers);
      if confirm {
        var result := Finalize(store, readOk, writeOk, id, date);
        r := Some(result);
      } else {
        r := None;
      }
    }

    /** One firing of the one-second interval. The interval runs only in an unsubmitted timed
        session; at 1 second or less it sets the clock to 0 and submits without asking,
        scoring the current answers and saving the result. */
    method Tick(store: HistoryStore, readOk: bool, writeOk: bool, id: string, date: string)
      returns (r: Option<TestResult>)
      requires Valid()
      modifies this, store
      ensures Valid()
      ensures old(mode == Practice || submitted) ==>
        r == None && submitted == old(submitted) && timeRemaining == old(timeRemaining)
      ensures old(mode == Timed && !submitted) ==> timeRemaining == TickValue(old(timeRemaining))
      ensures old(mode == Timed && !submitted) ==>
        (submitted <==> old(timeRemaining) <= 1) &&
        r == (if submitted then Some(Summarize(test, mode, answers, 0, id, date)) else None)
      ensures r.Some? ==> store.cell == AfterSave(old(store.cell), r.value, readOk, writeOk)
      ensures r.None? ==> store.cell == old(store.cell)
      ensures currentIndex == old(currentIndex) && answers == old(answers) && marked == old(marked)
    {
      if mode == Practice || submitted {
        return None;
      }
      if timeRemaining <= 1 {
        timeRemaining := 0;
        var result := Finalize(store, readOk, writeOk, id, date);
        r := Some(result);
      } else {
        timeRemaining := timeRemaining - 1;
        r := None;
      }
    }
  }

  /** What the expiring timer actually scores: its callback was created with the screen's
      first render and calls that render's `handleSubmit`, whose `finalizeSubmit` still sees
      the initial answers (all empty) and the initial clock value. */
  function AsWrittenAutoSubmit(test: Test, mode: Mode, id: string, date: string): TestResult
  {
    Summarize(test, mode, seq(|test.questions|, _ => Unanswered), InitialSeconds(test), id, date)
  }

  lemma {:induction false} TallyOfUnanswered(qs: seq<Question>, ans: seq<Slot>)
    requires |qs| == |ans|
    requires forall i :: 0 <= i < |ans| ==> ans[i] == Unanswered
    ensures TallyOf(qs, ans) == Tally(0, 0, |qs|)
    decreases |qs|
  {
    if qs != [] {
      TallyOfUnanswered(qs[..|qs| - 1], ans[..|ans| - 1]);
    }
  }

  /** The as-written auto-submission reports every question skipped and no time spent,
      whatever was answered; the corrected one (`Session.Tick`) reports the real answers and
      the full duration. For any attempt with a right answer the two differ. */
  lemma AutoSubmitLosesAnswers(test: Test, mode: Mode, ans: seq<Slot>, k: nat, id: string, date: string)
    requires |ans| == |test.questions| && k < |ans|
    requires Classify(test.questions[k], ans[k]) == Right
    ensures var stale := AsWrittenAutoSubmit(test, mode, id, date);
      var fixed := Summarize(test, mode, ans, 0, id, date);
      && stale.correct == 0 && stale.unanswered == |ans| && stale.timeSpent == 0
      && fixed.correct > 0 && fixed.timeSpent == InitialSeconds(test) > 0
  {
    TallyOfUnanswered(test.questions, seq(|test.questions|, _ => Unanswered));
    RightCounted(test.questions, ans, k);
  }

  /** What the confirmed Submit dialog actually scores: `handleSubmit` is rebuilt only when
      `selectAnswer` stores a new answer list, which every accepted click does (in timed mode
      also one that picks the option already chosen), so the `finalizeSubmit` it calls sees
      the current answers but the clock value `clockAtLastClick` of the render after the last
      accepted click (the full duration when nothing was clicked). */
  function AsWrittenManualSubmit(test: Test, mode: Mode, ans: seq<Slot>, clockAtLastClick: int,
                                 id: string, date: string): TestResult
    requires |ans| == |test.questions|
  {
    Summarize(test, mode, ans, clockAtLastClick, id, date)
  }

  /** The as-written manual submission differs from the corrected one (`Session.Submit`) only
      in the time spent, which is short by every second since the last accepted click; with
      no click at all it is 0. */
  lemma ManualSubmitLosesTime(test: Test, mode: Mode, ans: seq<Slot>, clockAtLastClick: int,
                              timeRemaining: int, id: string, date: string)
    requires |ans| == |test.questions|
    requires 0 <= timeRemaining <= clockAtLastClick <= InitialSeconds(test)
    ensures var stale := AsWrittenManualSubmit(test, mode, ans, clockAtLastClick, id, date);
      var fixed := Summarize(test, mode, ans, timeRemaining, id, date);
      && stale == fixed.(timeSpent := stale.timeSpent)
      && fixed.timeSpent - stale.timeSpent == clockAtLastClick - timeRemaining
      && (clockAtLastClick == InitialSeconds(test) ==> stale.timeSpent == 0)
  {
  }

  /** Answering at minute 1 of a 210-minute test and submitting at minute 200 records one
      minute instead of 200. */
  lemma ManualSubmitExample(test: Test, ans: seq<Slot>)
    requires |ans| == |test.questions| && test.duration == 210
    ensures AsWrittenManualSubmit(test, Timed, ans, 12600 - 60, "", "").timeSpent == 60
    ensures Summarize(test, Timed, ans, 12600 - 12000, "", "").timeSpent == 12000
  {
  }

  lemma {:induction false} RightCounted(qs: seq<Question>, ans: seq<Slot>, k: nat)
    requires |qs| == |ans| && k < |ans|
    requires Classify(qs[k], ans[k]) == Right
    ensures TallyOf(qs, ans).correct > 0
    decreases |qs|
  {
    if k < |qs| - 1 {
      RightCounted(qs[..|qs| - 1], ans[..|ans| - 1], k);
    }
  }

  /** The clock fields of `formatTime`: whole hours, then minutes and seconds below 60. */
  function ClockFields(seconds: nat): (f: (nat, nat, nat))
    ensures f.0 * 3600 + f.1 * 60 + f.2 == seconds
    ensures f.1 < 60 && f.2 < 60
  {
    (seconds / 3600, (seconds % 3600) / 60, seconds % 60)
  }

  /** `formatTime`: `h:mm:ss`, or `m:ss` when there are no whole hours. */
  function ClockText(seconds: nat): string
  {
    var (h, m, s) := ClockFields(seconds);
    if h > 0 then Decimal(h) + ":" + PadStart2(Decimal(m)) + ":" + PadStart2(Decimal(s))
    else Decimal(m) + ":" + PadStart2(Decimal(s))
  }

  function ReadNumber(s: string): nat
  {
    if AllDigits(s) then ParseDecimal(s) else 0
  }

  /** Reads a clock text back: the last two digits are seconds, the two before the colon
      minutes, and anything before a second colon hours. */
  function ReadClock(text: string): nat
  {
    if |text| >= 7 then
      ReadNumber(text[..|text| - 6]) * 3600 + ReadNumber(text[|text| - 5..|text| - 3]) * 60
      + ReadNumber(text[|text| - 2..])
    else if |text| >= 3 then
      ReadNumber(text[..|text| - 3]) * 60 + ReadNumber(text[|text| - 2..])
    else 0
  }

  lemma ReadPadded(n: nat)
    requires n < 60
    ensures |PadStart2(Decimal(n))| == 2 && ReadNumber(PadStart2(Decimal(n))) == n
  {
    PadStart2Value(Decimal(n));
    DecimalRoundTrip(n);
  }

  /** Reading an `h:mm:ss` text field by field. */
  lemma ReadThreeFields(a: string, b: string, c: string)
    requires a != [] && |b| == 2 && |c| == 2
    ensures ReadClock(a + ":" + b + ":" + c) == ReadNumber(a) * 3600 + ReadNumber(b) * 60 + ReadNumber(c)
  {
    var text := a + ":" + b + ":" + c;
    assert text[..|text| - 6] == a;
    assert text[|text| - 5..|text| - 3] == b;
    assert text[|text| - 2..] == c;
  }

  /** Reading an `m:ss` text field by field. */
  lemma ReadTwoFields(a: string, c: string)
    requires 1 <= |a| <= 2 && |c| == 2
    ensures ReadClock(a + ":" + c) == ReadNumber(a) * 60 + ReadNumber(c)
  {
    var text := a + ":" + c;
    assert text[..|text| - 3] == a;
    assert text[|text| - 2..] == c;
  }

  /** The clock text loses nothing: reading it back gives the seconds shown. */
  lemma ClockTextRoundTrip(seconds: nat)
    ensures ReadClock(ClockText(seconds)) == seconds
  {
    var (h, m, s) := ClockFields(seconds);
    var pm, ps := PadStart2(Decimal(m)), PadStart2(Decimal(s));
    ReadPadded(m);
    ReadPadded(s);
    if h > 0 {
      DecimalRoundTrip(h);
      ReadThreeFields(Decimal(h), pm, ps);
    } else {
      DecimalRoundTrip(m);
      ReadTwoFields(Decimal(m), ps);
    }
  }

  function Colons(s: string): nat
    decreases |s|
  {
    if s == [] then 0 else Colons(s[..|s| - 1]) + (if s[|s| - 1] == ':' then 1 else 0)
  }

  lemma {:induction false} ColonsAppend(a: string, b: string)
    ensures Colons(a + b) == Colons(a) + Colons(b)
    decreases |b|
  {
    if b == [] {
      assert a + b == a;
    } else {
      assert (a + b)[..|a + b| - 1] == a + b[..|b| - 1];
      assert (a + b)[|a + b| - 1] == b[|b| - 1];
      ColonsAppend(a, b[..|b| - 1]);
      var last := if b[|b| - 1] == ':' then 1 else 0;
      assert Colons(a + b) == Colons(a + b[..|b| - 1]) + last;
      assert Colons(b) == Colons(b[..|b| - 1]) + last;
    }
  }

  lemma {:induction false} DigitsHaveNoColons(s: string)
    requires AllDigits(s)
    ensures Colons(s) == 0
    decreases |s|
  {
    if s != [] {
      DigitsHaveNoColons(s[..|s| - 1]);
    }
  }

  /** The hour field appears exactly when there is at least one whole hour: the text has
      three fields then and two otherwise. */
  lemma ClockFieldCount(seconds: nat)
    ensures Colons(ClockText(seconds)) == if seconds >= 3600 then 2 else 1
  {
    var (h, m, s) := ClockFields(seconds);
    var pm, ps := PadStart2(Decimal(m)), PadStart2(Decimal(s));
    PadStart2Value(Decimal(m));
    PadStart2Value(Decimal(s));
    DigitsHaveNoColons(pm);
    DigitsHaveNoColons(ps);
    assert Colons(":") == 1 by {
      assert ":"[..0] == [];
    }
    if h > 0 {
      DigitsHaveNoColons(Decimal(h));
      ColonsAppend(Decimal(h), ":");
      ColonsAppend(Decimal(h) + ":", pm);
      ColonsAppend(Decimal(h) + ":" + pm, ":");
      ColonsAppend(Decimal(h) + ":" + pm + ":", ps);
    } else {
      DigitsHaveNoColons(Decimal(m));
      ColonsAppend(Decimal(m), ":");
      ColonsAppend(Decimal(m) + ":", ps);
    }
  }
}
