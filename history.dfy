/** The local result history (lib/storage.ts). The key-value store is one cell under the
    fixed key `@neetpg_history`: `None` when nothing is stored, `Some(list)` when a list is.
    Whether a storage call fails is decided by the environment and passed in as a flag; a
    failure is swallowed, never propagated. */
module History {
  import opened Wrappers
  import Seqs

  datatype Mode = Timed | Practice

  /** The `TestResult` record; `percentage` is kept as a real number. */
  datatype TestResult = TestResult(
    id: string,
    testId: string,
    testName: string,
    mode: Mode,
    score: int,
    total: int,
    percentage: real,
    correct: nat,
    incorrect: nat,
    unanswered: nat,
    date: string,
    timeSpent: int)

  const Capacity: nat := 100

  /** `getTestHistory`: the list under the key, or `[]` when nothing is stored or the read fails. */
  function Loaded(cell: Option<seq<TestResult>>, readOk: bool): (h: seq<TestResult>)
    ensures !readOk || cell.None? ==> h == []
    ensures readOk && cell.Some? ==> h == cell.value
  {
    if readOk && cell.Some? then cell.value else []
  }

  /** `unshift` followed by truncation to 100: the new result first, then as many of the
      previous entries, in order, as still fit. */
  function Prepend(r: TestResult, existing: seq<TestResult>): (h: seq<TestResult>)
    ensures |h| == Min(|existing| + 1, Capacity)
    ensures h[0] == r
    ensures h[1..] == existing[..Min(|existing|, Capacity - 1)]
  {
    var s := [r] + existing;
    if |s| > Capacity then s[..Capacity] else s
  }

  /** The cell after `saveTestResult`: the loaded list with `r` put in front, or the old cell
      when the write fails. A failed read inside the save loads `[]`, so the write then
      replaces whatever was stored by `[r]`. */
  function AfterSave(cell: Option<seq<TestResult>>, r: TestResult, readOk: bool, writeOk: bool)
    : Option<seq<TestResult>>
  {
    if writeOk then Some(Prepend(r, Loaded(cell, readOk))) else cell
  }

  /** The cell after `clearHistory`: the key removed, or untouched when the removal fails. */
  function AfterClear(cell: Option<seq<TestResult>>, removeOk: bool): Option<seq<TestResult>>
  {
    if removeOk then None else cell
  }

  class HistoryStore {
    var cell: Option<seq<TestResult>>

    constructor (initial: Option<seq<TestResult>>)
      ensures cell == initial
    {
      cell := initial;
    }

    method GetTestHistory(readOk: bool) returns (h: seq<TestResult>)
      ensures h == Loaded(cell, readOk)
    {
      if !readOk {
        return [];
      }
      match cell
      case None => h := [];
      case Some(data) => h := data;
    }

    /** Reads the history, puts `r` first, cuts the list to 100 entries and writes it back. */
    method SaveTestResult(r: TestResult, readOk: bool, writeOk: bool)
      modifies this
      ensures cell == AfterSave(old(cell), r, readOk, writeOk)
    {
      var existing := GetTestHistory(readOk);
      existing := [r] + existing;
      if |existing| > Capacity {
        existing := existing[..Capacity];
      }
      if writeOk {
        cell := Some(existing);
      }
    }

    method ClearHistory(removeOk: bool)
      modifies this
      ensures cell == AfterClear(old(cell), removeOk)
    {
      if removeOk {
        cell := None;
      }
    }
  }

  /** After a successful save, the next successful read starts with the saved result. */
  lemma SaveThenRead(cell: Option<seq<TestResult>>, r: TestResult, readOk: bool)
    ensures var h := Loaded(AfterSave(cell, r, readOk, true), true);
      h != [] && h[0] == r && |h| <= Capacity
  {
  }

  /** A failed save leaves the store as it was. */
  lemma FailedSaveUnchanged(cell: Option<seq<TestResult>>, r: TestResult, readOk: bool)
    ensures AfterSave(cell, r, readOk, false) == cell
  {
  }

  /** A successful clear followed by any read gives the empty history. */
  lemma ClearThenRead(cell: Option<seq<TestResult>>, readOk: bool)
    ensures Loaded(AfterClear(cell, true), readOk) == []
  {
  }

  /** A save whose own read fails still writes: it loads `[]`, so the stored history is
      replaced by the new result alone. */
  lemma SaveAfterFailedReadForgets(cell: Option<seq<TestResult>>, r: TestResult)
    ensures AfterSave(cell, r, false, true) == Some([r])
  {
    var h := Prepend(r, []);
    assert |h| == 1 && h[0] == r;
    assert h == [r];
  }

  /** Saving into a full history drops exactly the oldest entry. */
  lemma SaveIntoFull(r: TestResult, existing: seq<TestResult>)
    requires |existing| == Capacity
    ensures Prepend(r, existing) == [r] + existing[..Capacity - 1]
  {
  }

  /** Saving `rs[0]`, `rs[1]`, ... in turn. */
  function SaveAll(h: seq<TestResult>, rs: seq<TestResult>): seq<TestResult>
    decreases |rs|
  {
    if rs == [] then h else SaveAll(Prepend(rs[0], h), rs[1..])
  }

  /** A run of saves leaves the most recent first: the newest results in reverse saving
      order, followed by the older history, cut to 100 entries. */
  lemma {:induction false} SaveAllMostRecentFirst(h: seq<TestResult>, rs: seq<TestResult>)
    requires |h| <= Capacity
    ensures var all := Seqs.Reverse(rs) + h;
      SaveAll(h, rs) == all[..Min(|all|, Capacity)]
    decreases |rs|
  {
    if rs != [] {
      var y := [rs[0]] + h;
      var h' := Prepend(rs[0], h);
      assert h' == y[..Min(|y|, Capacity)];
      SaveAllMostRecentFirst(h', rs[1..]);
      Seqs.ReverseCons(rs);
      var x := Seqs.Reverse(rs[1..]);
      assert Seqs.Reverse(rs) + h == x + y;
      TruncateInside(x, y, Capacity);
    }
  }

  /** Cutting the tail of a list before cutting the whole list changes nothing. */
  lemma TruncateInside<T>(x: seq<T>, y: seq<T>, c: nat)
    ensures var m := Min(|y|, c);
      (x + y[..m])[..Min(|x| + m, c)] == (x + y)[..Min(|x| + |y|, c)]
  {
    var m := Min(|y|, c);
    var l, r := (x + y[..m])[..Min(|x| + m, c)], (x + y)[..Min(|x| + |y|, c)];
    assert |l| == |r|;
    forall i | 0 <= i < |l|
      ensures l[i] == r[i]
    {
      if i >= |x| {
        assert l[i] == y[..m][i - |x|];
      }
    }
  }
}
