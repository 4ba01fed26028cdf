/** The read-only question bank (lib/question-data.ts): the test records loaded from the
    bundled JSON file, and the three queries the screens run against them. The loaded
    array is a parameter `bank` of every query. */
module QuestionBank {
  import opened Wrappers
  import opened Text
  import Seqs

  /** `label` of the source record is `optionLabel` here (`label` is a Dafny keyword). */
  datatype QuestionOption = QuestionOption(optionLabel: string, text: string, correct: bool)

  datatype Question = Question(
    id: int,
    text: string,
    options: seq<QuestionOption>,
    correctAnswer: string,
    explanation: string)

  /** `duration` is in minutes. */
  datatype Test = Test(
    id: string,
    name: string,
    questionCount: int,
    duration: nat,
    questions: seq<Question>)

  /** `{ ...t, questions: [] }`: a test without its heavy question list. */
  function Summary(t: Test): Test
  {
    t.(questions := [])
  }

  /** `getAllTests`: every test in bank order, with id, name, count and duration kept and the
      question list emptied. */
  function GetAllTests(bank: seq<Test>): (r: seq<Test>)
    ensures |r| == |bank|
    ensures forall i :: 0 <= i < |bank| ==>
      && r[i].id == bank[i].id
      && r[i].name == bank[i].name
      && r[i].questionCount == bank[i].questionCount
      && r[i].duration == bank[i].duration
      && r[i].questions == []
  {
    seq(|bank|, i requires 0 <= i < |bank| => Summary(bank[i]))
  }

  /** The position of the first test whose id is `id`, or -1 (`findIndex`). */
  function FirstWithId(bank: seq<Test>, id: string): (k: int)
    ensures -1 <= k < |bank|
    ensures k >= 0 ==> bank[k].id == id
    ensures forall j :: 0 <= j < |bank| && (k < 0 || j < k) ==> bank[j].id != id
    decreases |bank|
  {
    if bank == [] then -1
    else if bank[0].id == id then 0
    else
      var k := FirstWithId(bank[1..], id);
      if k < 0 then -1 else k + 1
  }

  /** `getTestById`: the first test with the id, or `undefined` when there is none. */
  function GetTestById(bank: seq<Test>, id: string): (r: Option<Test>)
    ensures r.None? <==> forall j :: 0 <= j < |bank| ==> bank[j].id != id
    ensures r.Some? ==> r.value.id == id && r.value in bank
    ensures r.Some? ==> exists k :: 0 <= k < |bank| && r.value == bank[k] && forall j :: 0 <= j < k ==> bank[j].id != id
  {
    var k := FirstWithId(bank, id);
    if k < 0 then None else Some(bank[k])
  }

  predicate NameMatches(t: Test, q: string)
  {
    Contains(Lower(t.name), q)
  }

  /** `searchTests`: the query is lowercased and trimmed; a blank query lists everything,
      otherwise the tests whose lowercased name contains it, as summaries. */
  function SearchTests(bank: seq<Test>, query: string): seq<Test>
  {
    var q := Trim(Lower(query));
    if q == [] then GetAllTests(bank)
    else GetAllTests(Seqs.Filter(bank, t => NameMatches(t, q)))
  }

  /** A query that is blank after trimming lists the whole bank. */
  lemma SearchBlank(bank: seq<Test>, query: string)
    requires Trim(query) == []
    ensures SearchTests(bank, query) == GetAllTests(bank)
  {
    TrimOfLower(query);
  }

  /** A single test is listed exactly when the query is blank or its name matches. */
  lemma SearchSingleton(t: Test, query: string)
    ensures SearchTests([t], query) ==
      if Trim(query) == [] || NameMatches(t, Trim(Lower(query))) then [Summary(t)] else []
  {
    TrimOfLower(query);
    var q := Trim(Lower(query));
    if q != [] {
      var p := u => NameMatches(u, q);
      assert [t][..0] == [];
      assert Seqs.Filter([t], p) == if p(t) then [t] else [];
    }
  }

  /** Searching keeps the bank's order: the search of a concatenation is the concatenation
      of the searches. With `SearchSingleton` this pins the result down completely. */
  lemma SearchAppend(a: seq<Test>, b: seq<Test>, query: string)
    ensures SearchTests(a + b, query) == SearchTests(a, query) + SearchTests(b, query)
  {
    var q := Trim(Lower(query));
    if q != [] {
      var p := t => NameMatches(t, q);
      Seqs.FilterAppend(a, b, p);
      GetAllTestsAppend(Seqs.Filter(a, p), Seqs.Filter(b, p));
    } else {
      GetAllTestsAppend(a, b);
    }
  }

  lemma GetAllTestsAppend(a: seq<Test>, b: seq<Test>)
    ensures GetAllTests(a + b) == GetAllTests(a) + GetAllTests(b)
  {
    var l, r := GetAllTests(a + b), GetAllTests(a) + GetAllTests(b);
    forall i | 0 <= i < |l|
      ensures l[i] == r[i]
    {
      if i < |a| {
        assert (a + b)[i] == a[i];
      } else {
        assert (a + b)[i] == b[i - |a|];
      }
    }
  }

  /** Every search result is a summary of a test in the bank. */
  lemma SearchResultsAreSummaries(bank: seq<Test>, query: string, t: Test)
    requires t in SearchTests(bank, query)
    ensures t.questions == [] && exists u :: u in bank && t == Summary(u)
  {
    var q := Trim(Lower(query));
    if q != [] {
      var f := Seqs.Filter(bank, u => NameMatches(u, q));
      var i :| 0 <= i < |f| && GetAllTests(f)[i] == t;
      Seqs.FilterMembership(bank, u => NameMatches(u, q), f[i]);
    } else {
      var i :| 0 <= i < |bank| && GetAllTests(bank)[i] == t;
      assert t == Summary(bank[i]);
    }
  }
}
