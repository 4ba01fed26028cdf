/** The post-submission review on the results screen (app/results.tsx): the four question
    filters, the coloured question grid, stepping through a filter in the review modal, and
    the elapsed-time label. The recorded answers arrive with one slot per question. */
module Review {
  import opened Text
  import opened QuestionBank
  import opened Quiz
  import Seqs

  datatype ReviewFilter = All | CorrectOnly | IncorrectOnly | UnansweredOnly

  /** The screen's filter predicate for index `i`, written as the screen writes it (it
      restates the scoring pass's correctness test rather than calling it). */
  predicate Shows(f: ReviewFilter, qs: seq<Question>, ans: seq<Slot>, i: int)
  {
    && 0 <= i < |qs|
    && i < |ans|
    && match f
       case All => true
       case CorrectOnly => ans[i].Answered? && OptionIsCorrect(qs[i], ans[i].choice)
       case IncorrectOnly => ans[i].Answered? && !OptionIsCorrect(qs[i], ans[i].choice)
       case UnansweredOnly => ans[i] == Unanswered
  }

  /** The filter applied to the first `k` indices. */
  function FilteredPrefix(f: ReviewFilter, qs: seq<Question>, ans: seq<Slot>, k: nat): seq<int>
  {
    Seqs.Filter(Seqs.Range(k), i => Shows(f, qs, ans, i))
  }

  /** `filteredIndices`: `questions.map((_, i) => i).filter(...)`. */
  function FilteredIndices(f: ReviewFilter, qs: seq<Question>, ans: seq<Slot>): seq<int>
  {
    FilteredPrefix(f, qs, ans, |qs|)
  }

  /** The "all" filter lists every index in order. */
  lemma AllIsEveryIndex(qs: seq<Question>, ans: seq<Slot>)
    requires |qs| == |ans|
    ensures FilteredIndices(All, qs, ans) == Seqs.Range(|qs|)
  {
    Seqs.FilterKeepsAll(Seqs.Range(|qs|), i => Shows(All, qs, ans, i));
  }

  /** An index is listed exactly when the filter's predicate holds of it; every list is
      strictly increasing, hence a subsequence of the "all" list. */
  lemma FilteredMembership(f: ReviewFilter, qs: seq<Question>, ans: seq<Slot>, i: int)
    ensures i in FilteredIndices(f, qs, ans) <==> Shows(f, qs, ans, i)
    ensures Seqs.StrictlyIncreasing(FilteredIndices(f, qs, ans))
  {
    var p := j => Shows(f, qs, ans, j);
    Seqs.FilterMembership(Seqs.Range(|qs|), p, i);
    Seqs.RangeIncreasing(|qs|);
    Seqs.FilterIncreasing(Seqs.Range(|qs|), p);
    if 0 <= i < |qs| {
      assert Seqs.Range(|qs|)[i] == i;
    }
  }

  /** The review predicates are the scoring pass's verdicts. */
  lemma ShowsIsVerdict(qs: seq<Question>, ans: seq<Slot>, i: int)
    requires |qs| == |ans| && 0 <= i < |qs|
    ensures Shows(CorrectOnly, qs, ans, i) <==> Classify(qs[i], ans[i]) == Right
    ensures Shows(IncorrectOnly, qs, ans, i) <==> Classify(qs[i], ans[i]) == Wrong
    ensures Shows(UnansweredOnly, qs, ans, i) <==> Classify(qs[i], ans[i]) == Skipped
  {
  }

  /** The correct, incorrect and unanswered lists partition the indices: each index of the
      test is in exactly one of them. */
  lemma FiltersPartition(qs: seq<Question>, ans: seq<Slot>, i: int)
    requires |qs| == |ans| && 0 <= i < |qs|
    ensures var inC := i in FilteredIndices(CorrectOnly, qs, ans);
      var inI := i in FilteredIndices(IncorrectOnly, qs, ans);
      var inU := i in FilteredIndices(UnansweredOnly, qs, ans);
      (inC || inI || inU) && !(inC && inI) && !(inC && inU) && !(inI && inU)
  {
    FilteredMembership(CorrectOnly, qs, ans, i);
    FilteredMembership(IncorrectOnly, qs, ans, i);
    FilteredMembership(UnansweredOnly, qs, ans, i);
  }

  lemma {:induction false} PrefixCounts(qs: seq<Question>, ans: seq<Slot>, k: nat)
    requires |qs| == |ans| && k <= |qs|
    ensures var t := TallyOf(qs[..k], ans[..k]);
      && |FilteredPrefix(CorrectOnly, qs, ans, k)| == t.correct
      && |FilteredPrefix(IncorrectOnly, qs, ans, k)| == t.incorrect
      && |FilteredPrefix(UnansweredOnly, qs, ans, k)| == t.unanswered
    decreases k
  {
    if k > 0 {
      PrefixCounts(qs, ans, k - 1);
      assert Seqs.Range(k)[..k - 1] == Seqs.Range(k - 1);
      assert qs[..k][..k - 1] == qs[..k - 1] && ans[..k][..k - 1] == ans[..k - 1];
      assert qs[..k][k - 1] == qs[k - 1] && ans[..k][k - 1] == ans[k - 1];
      ShowsIsVerdict(qs, ans, k - 1);
    }
  }

  /** The filter chips' lists have the sizes of the counters the scoring pass stored, and
      together they are as long as the "all" list. */
  lemma FilterSizesMatchScoring(qs: seq<Question>, ans: seq<Slot>)
    requires |qs| == |ans|
    ensures var t := TallyOf(qs, ans);
      && |FilteredIndices(CorrectOnly, qs, ans)| == t.correct
      && |FilteredIndices(IncorrectOnly, qs, ans)| == t.incorrect
      && |FilteredIndices(UnansweredOnly, qs, ans)| == t.unanswered
      && |FilteredIndices(All, qs, ans)| == t.correct + t.incorrect + t.unanswered
  {
    PrefixCounts(qs, ans, |qs|);
    assert qs[..|qs|] == qs && ans[..|ans|] == ans;
    AllIsEveryIndex(qs, ans);
    TallyTotal(qs, ans);
  }

  datatype Tile = CorrectTile | IncorrectTile | NeutralTile

  /** The grid colour: neutral, overridden by "correct", overridden by "incorrect". */
  function GridTile(qs: seq<Question>, ans: seq<Slot>, i: int): Tile
  {
    var isCorrect := Shows(CorrectOnly, qs, ans, i);
    var isIncorrect := Shows(IncorrectOnly, qs, ans, i);
    if isIncorrect then IncorrectTile else if isCorrect then CorrectTile else NeutralTile
  }

  /** Each question gets exactly one colour, the one its filter agrees with: neutral means
      unanswered. */
  lemma GridTileMatchesFilters(qs: seq<Question>, ans: seq<Slot>, i: int)
    requires |qs| == |ans| && 0 <= i < |qs|
    ensures GridTile(qs, ans, i) == CorrectTile <==> i in FilteredIndices(CorrectOnly, qs, ans)
    ensures GridTile(qs, ans, i) == IncorrectTile <==> i in FilteredIndices(IncorrectOnly, qs, ans)
    ensures GridTile(qs, ans, i) == NeutralTile <==> i in FilteredIndices(UnansweredOnly, qs, ans)
  {
    FilteredMembership(CorrectOnly, qs, ans, i);
    FilteredMembership(IncorrectOnly, qs, ans, i);
    FilteredMembership(UnansweredOnly, qs, ans, i);
  }

  /** `indexOf`: the first position of `x`, or -1. */
  function IndexOf(s: seq<int>, x: int): (k: int)
    ensures -1 <= k < |s|
    ensures k >= 0 ==> s[k] == x
    ensures k < 0 <==> x !in s
    ensures forall j :: 0 <= j < |s| && (k < 0 || j < k) ==> s[j] != x
    decreases |s|
  {
    if s == [] then -1
    else if s[0] == x then 0
    else
      var k := IndexOf(s[1..], x);
      if k < 0 then -1 else k + 1
  }

  /** The review modal's back button: the previous listed index, or no move at the first. */
  function ReviewPrev(list: seq<int>, current: int): int
  {
    var k := IndexOf(list, current);
    if k > 0 then list[k - 1] else current
  }

  /** The review modal's forward button: the next listed index, or no move at the last. */
  function ReviewNext(list: seq<int>, current: int): int
  {
    var k := IndexOf(list, current);
    if k < |list| - 1 then list[k + 1] else current
  }

  lemma IndexOfIncreasing(list: seq<int>, k: nat)
    requires Seqs.StrictlyIncreasing(list) && k < |list|
    ensures IndexOf(list, list[k]) == k
  {
  }

  /** In a filter's list, the buttons move to the neighbouring listed question and stay put
      at either end. */
  lemma ReviewSteps(f: ReviewFilter, qs: seq<Question>, ans: seq<Slot>, k: nat)
    requires k < |FilteredIndices(f, qs, ans)|
    ensures var list := FilteredIndices(f, qs, ans);
      && ReviewNext(list, list[k]) == (if k + 1 < |list| then list[k + 1] else list[k])
      && ReviewPrev(list, list[k]) == (if k > 0 then list[k - 1] else list[k])
  {
    FilteredMembership(f, qs, ans, 0);
    IndexOfIncreasing(FilteredIndices(f, qs, ans), k);
  }

  /** From a question the list does not hold (`indexOf` gives -1), forward jumps to the
      first listed question and back does nothing. */
  lemma ReviewFromUnlisted(list: seq<int>, current: int)
    requires current !in list && list != []
    ensures ReviewNext(list, current) == list[0]
    ensures ReviewPrev(list, current) == current
  {
  }

  /** Forward then back returns to the question one started from (unless already at the end). */
  lemma ReviewNextThenPrev(f: ReviewFilter, qs: seq<Question>, ans: seq<Slot>, k: nat)
    requires k + 1 < |FilteredIndices(f, qs, ans)|
    ensures var list := FilteredIndices(f, qs, ans);
      ReviewPrev(list, ReviewNext(list, list[k])) == list[k]
  {
    var list := FilteredIndices(f, qs, ans);
    FilteredMembership(f, qs, ans, 0);
    IndexOfIncreasing(list, k);
    IndexOfIncreasing(list, k + 1);
  }

  /** Minutes and seconds of the elapsed-time label. */
  function DurationFields(seconds: nat): (f: (nat, nat))
    ensures f.0 * 60 + f.1 == seconds && f.1 < 60
  {
    (seconds / 60, seconds % 60)
  }

  /** The results screen's `formatTime`: `"<m>m <s>s"`, without padding. */
  function DurationText(seconds: nat): string
  {
    var (m, s) := DurationFields(seconds);
    Decimal(m) + "m " + Decimal(s) + "s"
  }

  /** Reads the label back: the number before the `m`, times 60, plus the number between
      `"m "` and the final `s`. */
  function ReadDuration(text: string): nat
  {
    var k := CharIndex(text, 'm');
    if k + 3 <= |text| then ReadNumber(text[..k]) * 60 + ReadNumber(text[k + 2..|text| - 1]) else 0
  }

  lemma {:induction false} CharIndexAfterDigits(a: string, b: string)
    requires AllDigits(a)
    ensures CharIndex(a + "m" + b, 'm') == |a|
    decreases |a|
  {
    if a != [] {
      assert (a + "m" + b)[1..] == a[1..] + "m" + b;
      CharIndexAfterDigits(a[1..], b);
    }
  }

  /** The elapsed-time label loses nothing: reading it back gives the seconds. */
  lemma DurationTextRoundTrip(seconds: nat)
    ensures ReadDuration(DurationText(seconds)) == seconds
  {
    var (m, s) := DurationFields(seconds);
    var dm, ds := Decimal(m), Decimal(s);
    DecimalRoundTrip(m);
    DecimalRoundTrip(s);
    var text := DurationText(seconds);
    assert text == dm + "m" + (" " + ds + "s");
    CharIndexAfterDigits(dm, " " + ds + "s");
    assert text[..|dm|] == dm;
    assert text[|dm| + 2..|text| - 1] == ds;
  }
}
