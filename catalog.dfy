/** The home screen's test list (app/index.tsx): the keyword classifier that gives every
    test a subject, the subject's icon and colour, the search box filter and the header's
    question total. */
module Catalog {
  import opened Text
  import opened QuestionBank
  import Seqs

  /** `getSubjectFromName`: the lowercased name is matched against the keyword groups in a
      fixed order; the first group with a keyword in the name decides. */
  function GetSubjectFromName(name: string): string
  {
    var lower := Lower(name);
    if Contains(lower, "mega") || Contains(lower, "gt") || Contains(lower, "mock")
       || Contains(lower, "integrated") || Contains(lower, "fmg") then "Grand Test"
    else if Contains(lower, "biochem") || Contains(lower, "fmt") then "Biochem / FMT"
    else if Contains(lower, "micro") || Contains(lower, "anat") then "Micro / Anatomy"
    else if Contains(lower, "psm") || Contains(lower, "derma") || Contains(lower, "anes") then "PSM / Derma / Anes"
    else if Contains(lower, "ent") || Contains(lower, "ophthal") || Contains(lower, "psychi") then "ENT / Ophthal / Psych"
    else if Contains(lower, "surg") || Contains(lower, "ortho") || Contains(lower, "radio") then "Surgery / Ortho / Radio"
    else if Contains(lower, "obg") || Contains(lower, "pediatric") then "Pediatrics / OBG"
    else if Contains(lower, "extra") then "Extra Edge"
    else "General"
  }

  datatype Rule = Rule(keywords: seq<string>, subject: string)

  /** The classifier as a table, in precedence order. */
  const SubjectRules: seq<Rule> := [
    Rule(["mega", "gt", "mock", "integrated", "fmg"], "Grand Test"),
    Rule(["biochem", "fmt"], "Biochem / FMT"),
    Rule(["micro", "anat"], "Micro / Anatomy"),
    Rule(["psm", "derma", "anes"], "PSM / Derma / Anes"),
    Rule(["ent", "ophthal", "psychi"], "ENT / Ophthal / Psych"),
    Rule(["surg", "ortho", "radio"], "Surgery / Ortho / Radio"),
    Rule(["obg", "pediatric"], "Pediatrics / OBG"),
    Rule(["extra"], "Extra Edge")
  ]

  const Fallback := "General"

  predicate AnyKeyword(s: string, keywords: seq<string>)
    decreases |keywords|
  {
    keywords != [] && (Contains(s, keywords[0]) || AnyKeyword(s, keywords[1..]))
  }

  /** The subject of the first rule with a keyword in `s`, or the fallback. */
  function FirstRule(s: string, rules: seq<Rule>): string
    decreases |rules|
  {
    if rules == [] then Fallback
    else if AnyKeyword(s, rules[0].keywords) then rules[0].subject
    else FirstRule(s, rules[1..])
  }

  /** Each rule's keyword test is the disjunction the if-chain spells out. */
  lemma RuleTest0(s: string)
    ensures AnyKeyword(s, SubjectRules[0].keywords) <==> Contains(s, "mega") || Contains(s, "gt") || Contains(s, "mock") || Contains(s, "integrated") || Contains(s, "fmg")
  {
    var ks := SubjectRules[0].keywords;
    assert ks[1..] == ["gt", "mock", "integrated", "fmg"];
    assert ks[2..] == ["mock", "integrated", "fmg"];
    assert ks[3..] == ["integrated", "fmg"];
    assert ks[4..] == ["fmg"];
    assert ks[5..] == [];
  }

  lemma RuleTest1(s: string)
    ensures AnyKeyword(s, SubjectRules[1].keywords) <==> Contains(s, "biochem") || Contains(s, "fmt")
  {
    var ks := SubjectRules[1].keywords;
    assert ks[1..] == ["fmt"];
    assert ks[2..] == [];
  }

  lemma RuleTest2(s: string)
    ensures AnyKeyword(s, SubjectRules[2].keywords) <==> Contains(s, "micro") || Contains(s, "anat")
  {
    var ks := SubjectRules[2].keywords;
    assert ks[1..] == ["anat"];
    assert ks[2..] == [];
  }

  lemma RuleTest3(s: string)
    ensures AnyKeyword(s, SubjectRules[3].keywords) <==> Contains(s, "psm") || Contains(s, "derma") || Contains(s, "anes")
  {
    var ks := SubjectRules[3].keywords;
    assert ks[1..] == ["derma", "anes"];
    assert ks[2..] == ["anes"];
    assert ks[3..] == [];
  }

  lemma RuleTest4(s: string)
    ensures AnyKeyword(s, SubjectRules[4].keywords) <==> Contains(s, "ent") || Contains(s, "ophthal") || Contains(s, "psychi")
  {
    var ks := SubjectRules[4].keywords;
    assert ks[1..] == ["ophthal", "psychi"];
    assert ks[2..] == ["psychi"];
    assert ks[3..] == [];
  }

  lemma RuleTest5(s: string)
    ensures AnyKeyword(s, SubjectRules[5].keywords) <==> Contains(s, "surg") || Contains(s, "ortho") || Contains(s, "radio")
  {
    var ks := SubjectRules[5].keywords;
    assert ks[1..] == ["ortho", "radio"];
    assert ks[2..] == ["radio"];
    assert ks[3..] == [];
  }

  lemma RuleTest6(s: string)
    ensures AnyKeyword(s, SubjectRules[6].keywords) <==> Contains(s, "obg") || Contains(s, "pediatric")
  {
    var ks := SubjectRules[6].keywords;
    assert ks[1..] == ["pediatric"];
    assert ks[2..] == [];
  }

  lemma RuleTest7(s: string)
    ensures AnyKeyword(s, SubjectRules[7].keywords) <==> Contains(s, "extra")
  {
    var ks := SubjectRules[7].keywords;
    assert ks[1..] == [];
  }

  /** The table read from rule `i` on. */
  lemma RuleSteps(s: string)
    ensures FirstRule(s, SubjectRules) ==
      if AnyKeyword(s, SubjectRules[0].keywords) then SubjectRules[0].subject else FirstRule(s, SubjectRules[1..])
    ensures FirstRule(s, SubjectRules[1..]) ==
      if AnyKeyword(s, SubjectRules[1].keywords) then SubjectRules[1].subject else FirstRule(s, SubjectRules[2..])
    ensures FirstRule(s, SubjectRules[2..]) ==
      if AnyKeyword(s, SubjectRules[2].keywords) then SubjectRules[2].subject else FirstRule(s, SubjectRules[3..])
    ensures FirstRule(s, SubjectRules[3..]) ==
      if AnyKeyword(s, SubjectRules[3].keywords) then SubjectRules[3].subject else FirstRule(s, SubjectRules[4..])
    ensures FirstRule(s, SubjectRules[4..]) ==
      if AnyKeyword(s, SubjectRules[4].keywords) then SubjectRules[4].subject else FirstRule(s, SubjectRules[5..])
    ensures FirstRule(s, SubjectRules[5..]) ==
      if AnyKeyword(s, SubjectRules[5].keywords) then SubjectRules[5].subject else FirstRule(s, SubjectRules[6..])
    ensures FirstRule(s, SubjectRules[6..]) ==
      if AnyKeyword(s, SubjectRules[6].keywords) then SubjectRules[6].subject else FirstRule(s, SubjectRules[7..])
    ensures FirstRule(s, SubjectRules[7..]) ==
      if AnyKeyword(s, SubjectRules[7].keywords) then SubjectRules[7].subject else Fallback
  {
    var r := SubjectRules;
    RuleAt(s, r, 0);
    RuleAt(s, r, 1);
    RuleAt(s, r, 2);
    RuleAt(s, r, 3);
    RuleAt(s, r, 4);
    RuleAt(s, r, 5);
    RuleAt(s, r, 6);
    RuleAt(s, r, 7);
    assert r[0..] == r;
    assert r[8..] == [];
  }

  /** Reading the table from rule `k`: rule `k` decides if it matches, else the rest does. */
  lemma RuleAt(s: string, rules: seq<Rule>, k: nat)
    requires k < |rules|
    ensures FirstRule(s, rules[k..]) ==
      if AnyKeyword(s, rules[k].keywords) then rules[k].subject else FirstRule(s, rules[k + 1..])
  {
    assert rules[k..][1..] == rules[k + 1..];
  }

  /** The if-chain is the table read top to bottom. */
  lemma SubjectIsFirstMatchingRule(name: string)
    ensures GetSubjectFromName(name) == FirstRule(Lower(name), SubjectRules)
  {
    RuleTest0(Lower(name));
    RuleTest1(Lower(name));
    RuleTest2(Lower(name));
    RuleTest3(Lower(name));
    RuleTest4(Lower(name));
    RuleTest5(Lower(name));
    RuleTest6(Lower(name));
    RuleTest7(Lower(name));
    RuleSteps(Lower(name));
  }

  /** Where the classifier stops: the first rule with a keyword in `s`, or -1 (fallback). */
  lemma {:induction false} FirstRuleIndex(s: string, rules: seq<Rule>) returns (j: int)
    ensures -1 <= j < |rules|
    ensures j >= 0 ==> FirstRule(s, rules) == rules[j].subject && AnyKeyword(s, rules[j].keywords)
    ensures j < 0 ==> FirstRule(s, rules) == Fallback
    ensures forall i :: 0 <= i < |rules| && (j < 0 || i < j) ==> !AnyKeyword(s, rules[i].keywords)
    decreases |rules|
  {
    if rules == [] {
      j := -1;
    } else if AnyKeyword(s, rules[0].keywords) {
      j := 0;
    } else {
      var j' := FirstRuleIndex(s, rules[1..]);
      j := if j' < 0 then -1 else j' + 1;
      forall i | 0 < i < |rules| ensures rules[i] == rules[1..][i - 1] { }
    }
  }

  /** First match wins: the subject is rule `k`'s exactly when rule `k` matches and no
      earlier rule does (subjects are distinct and none is the fallback). */
  lemma FirstRulePrecedence(s: string, rules: seq<Rule>, k: nat)
    requires k < |rules|
    requires forall i, j :: 0 <= i < j < |rules| ==> rules[i].subject != rules[j].subject
    requires forall i :: 0 <= i < |rules| ==> rules[i].subject != Fallback
    ensures FirstRule(s, rules) == rules[k].subject <==>
      AnyKeyword(s, rules[k].keywords) && forall i :: 0 <= i < k ==> !AnyKeyword(s, rules[i].keywords)
  {
    var j := FirstRuleIndex(s, rules);
    if j >= 0 && j != k {
      assert rules[j].subject != rules[k].subject by {
        if j < k { } else { }
      }
    }
  }

  /** The fallback is given exactly to names that match no rule. */
  lemma FirstRuleFallback(s: string, rules: seq<Rule>)
    requires forall i :: 0 <= i < |rules| ==> rules[i].subject != Fallback
    ensures FirstRule(s, rules) == Fallback <==> forall i :: 0 <= i < |rules| ==> !AnyKeyword(s, rules[i].keywords)
  {
    var j := FirstRuleIndex(s, rules);
  }

  /** The table's subjects are distinct and none of them is the fallback. */
  lemma SubjectsDistinct()
    ensures forall i, j :: 0 <= i < j < |SubjectRules| ==> SubjectRules[i].subject != SubjectRules[j].subject
    ensures forall i :: 0 <= i < |SubjectRules| ==> SubjectRules[i].subject != Fallback
  {
    var r := SubjectRules;
    assert r[0].subject == "Grand Test" && r[1].subject == "Biochem / FMT";
    assert r[2].subject == "Micro / Anatomy" && r[3].subject == "PSM / Derma / Anes";
    assert r[4].subject == "ENT / Ophthal / Psych" && r[5].subject == "Surgery / Ortho / Radio";
    assert r[6].subject == "Pediatrics / OBG" && r[7].subject == "Extra Edge";
  }

  /** The classifier's precedence: a name gets the subject of group `k` exactly when group
      `k` has a keyword in the lowercased name and no earlier group does. */
  lemma SubjectPrecedence(name: string, k: nat)
    requires k < |SubjectRules|
    ensures GetSubjectFromName(name) == SubjectRules[k].subject <==>
      && AnyKeyword(Lower(name), SubjectRules[k].keywords)
      && forall i :: 0 <= i < k ==> !AnyKeyword(Lower(name), SubjectRules[i].keywords)
  {
    SubjectIsFirstMatchingRule(name);
    SubjectsDistinct();
    FirstRulePrecedence(Lower(name), SubjectRules, k);
  }

  lemma {:induction false} AnyKeywordAt(s: string, keywords: seq<string>, j: nat)
    requires j < |keywords| && Contains(s, keywords[j])
    ensures AnyKeyword(s, keywords)
    decreases j
  {
    if j > 0 {
      AnyKeywordAt(s, keywords[1..], j - 1);
    }
  }

  /** A name matching the first group is a grand test whatever else it mentions; e.g. a
      "Mock Surgery" test is a grand test, not a surgery test. */
  lemma GrandTestFirst(name: string, j: nat)
    requires j < |SubjectRules[0].keywords| && Contains(Lower(name), SubjectRules[0].keywords[j])
    ensures GetSubjectFromName(name) == "Grand Test"
  {
    SubjectIsFirstMatchingRule(name);
    AnyKeywordAt(Lower(name), SubjectRules[0].keywords, j);
  }

  /** A name with no keyword of any group is "General". */
  lemma GeneralWhenNoKeyword(name: string)
    ensures GetSubjectFromName(name) == "General" <==>
      forall i :: 0 <= i < |SubjectRules| ==> !AnyKeyword(Lower(name), SubjectRules[i].keywords)
  {
    SubjectIsFirstMatchingRule(name);
    FirstRuleFallback(Lower(name), SubjectRules);
  }

  /** Classification is case-insensitive. */
  lemma SubjectIgnoresCase(a: string, b: string)
    requires Lower(a) == Lower(b)
    ensures GetSubjectFromName(a) == GetSubjectFromName(b)
  {
  }

  /** `getSubjectIcon`. */
  function GetSubjectIcon(subject: string): string
  {
    match subject
    case "Grand Test" => "flask"
    case "Biochem / FMT" => "beaker"
    case "Micro / Anatomy" => "bug"
    case "PSM / Derma / Anes" => "medical"
    case "ENT / Ophthal / Psych" => "eye"
    case "Surgery / Ortho / Radio" => "cut"
    case "Pediatrics / OBG" => "heart"
    case "Extra Edge" => "star"
    case _ => "book"
  }

  /** `getSubjectColor`: a fixed colour per subject, the theme's accent for anything else. */
  function GetSubjectColor(subject: string, accent: string): string
  {
    match subject
    case "Grand Test" => "#6366F1"
    case "Biochem / FMT" => "#EC4899"
    case "Micro / Anatomy" => "#F59E0B"
    case "PSM / Derma / Anes" => "#10B981"
    case "ENT / Ophthal / Psych" => "#8B5CF6"
    case "Surgery / Ortho / Radio" => "#EF4444"
    case "Pediatrics / OBG" => "#F97316"
    case "Extra Edge" => "#14B8A6"
    case _ => accent
  }

  /** Both lookups are total: a subject outside the table gets the book icon and the accent
      colour, and every subject of the table gets an icon of its own. */
  lemma DefaultsForUnknownSubject(subject: string, accent: string)
    ensures GetSubjectIcon(subject) == "book" <==>
      forall i :: 0 <= i < |SubjectRules| ==> SubjectRules[i].subject != subject
    ensures (forall i :: 0 <= i < |SubjectRules| ==> SubjectRules[i].subject != subject) ==>
      GetSubjectColor(subject, accent) == accent
  {
    var r := SubjectRules;
    assert r[0].subject == "Grand Test" && r[1].subject == "Biochem / FMT";
    assert r[2].subject == "Micro / Anatomy" && r[3].subject == "PSM / Derma / Anes";
    assert r[4].subject == "ENT / Ophthal / Psych" && r[5].subject == "Surgery / Ortho / Radio";
    assert r[6].subject == "Pediatrics / OBG" && r[7].subject == "Extra Edge";
  }

  /** Every classified name gets the generic book icon exactly when it is "General", and
      its colour depends on the accent only then. */
  lemma IconAndColorOfClassified(name: string, accent1: string, accent2: string)
    ensures var subject := GetSubjectFromName(name);
      && (GetSubjectIcon(subject) == "book" <==> subject == "General")
      && (subject == "General" ==> GetSubjectColor(subject, accent1) == accent1)
      && (subject != "General" ==> GetSubjectColor(subject, accent1) == GetSubjectColor(subject, accent2))
  {
  }

  /** `filteredTests`: a query that is blank after trimming lists everything; otherwise the
      tests whose lowercased name contains the lowercased query, which is NOT trimmed. */
  function FilteredTests(tests: seq<Test>, query: string): seq<Test>
  {
    if Trim(query) == [] then tests
    else Seqs.Filter(tests, (t: Test) => Contains(Lower(t.name), Lower(query)))
  }

  /** A whitespace-only query lists every test. */
  lemma FilteredTestsBlank(tests: seq<Test>, query: string)
    requires forall i :: 0 <= i < |query| ==> IsSpace(query[i])
    ensures FilteredTests(tests, query) == tests
  {
    TrimBlank(query);
  }

  /** The home list keeps the test order: filtering a concatenation is the concatenation of
      the filterings, and a single test is kept when its name matches. */
  lemma FilteredTestsInOrder(a: seq<Test>, b: seq<Test>, t: Test, query: string)
    ensures FilteredTests(a + b, query) == FilteredTests(a, query) + FilteredTests(b, query)
    ensures FilteredTests([t], query) ==
      if Trim(query) == [] || Contains(Lower(t.name), Lower(query)) then [t] else []
  {
    if Trim(query) != [] {
      var p := (u: Test) => Contains(Lower(u.name), Lower(query));
      Seqs.FilterAppend(a, b, p);
      assert [t][..0] == [];
      assert Seqs.Filter([t], p) == if p(t) then [t] else [];
    }
  }

  lemma {:induction false} FilterSummariesCommute(bank: seq<Test>, q: string)
    ensures Seqs.Filter(GetAllTests(bank), (t: Test) => Contains(Lower(t.name), q))
         == GetAllTests(Seqs.Filter(bank, t => NameMatches(t, q)))
    decreases |bank|
  {
    if bank != [] {
      var init := bank[..|bank| - 1];
      FilterSummariesCommute(init, q);
      assert GetAllTests(bank)[..|bank| - 1] == GetAllTests(init);
      var f := Seqs.Filter(init, t => NameMatches(t, q));
      var last := bank[|bank| - 1];
      if NameMatches(last, q) {
        assert GetAllTests(f + [last]) == GetAllTests(f) + [Summary(last)];
      } else {
        assert Seqs.Filter(bank, t => NameMatches(t, q)) == f;
      }
    }
  }

  lemma {:induction false} LowerKeepsLeadingSpaces(query: string)
    ensures LeadingSpaces(Lower(query)) == LeadingSpaces(query)
    decreases |query|
  {
    if query != [] {
      assert Lower(query)[1..] == Lower(query[1..]);
      LowerKeepsLeadingSpaces(query[1..]);
    }
  }

  lemma {:induction false} LowerKeepsTrailingSpaces(query: string)
    ensures TrailingSpaces(Lower(query)) == TrailingSpaces(query)
    decreases |query|
  {
    if query != [] {
      assert Lower(query)[..|query| - 1] == Lower(query[..|query| - 1]);
      LowerKeepsTrailingSpaces(query[..|query| - 1]);
    }
  }

  /** The home list and `searchTests` agree on every query without leading or trailing
      whitespace; they differ only in that the home list does not trim the query. */
  lemma FilteredTestsAgreesWithSearch(bank: seq<Test>, query: string)
    requires Trim(query) == query
    ensures FilteredTests(GetAllTests(bank), query) == SearchTests(bank, query)
  {
    TrimOfLower(query);
    if query != [] {
      LowerKeepsLeadingSpaces(query);
      LowerKeepsTrailingSpaces(query);
      assert LeadingSpaces(query) == 0;
      assert TrailingSpaces(Lower(query)[LeadingSpaces(Lower(query))..]) == 0;
      assert Trim(Lower(query)) == Lower(query);
      FilterSummariesCommute(bank, Lower(query));
    }
  }

  /** The header's question total: the sum of every test's question count. */
  function TotalQuestions(tests: seq<Test>): int
    decreases |tests|
  {
    if tests == [] then 0 else TotalQuestions(tests[..|tests| - 1]) + tests[|tests| - 1].questionCount
  }

  /** The header total over a list made of two parts is the sum of the parts' totals. */
  lemma {:induction false} TotalQuestionsAppend(a: seq<Test>, b: seq<Test>)
    ensures TotalQuestions(a + b) == TotalQuestions(a) + TotalQuestions(b)
    decreases |b|
  {
    if b == [] {
      assert a + b == a;
    } else {
      assert (a + b)[..|a + b| - 1] == a + b[..|b| - 1];
      TotalQuestionsAppend(a, b[..|b| - 1]);
    }
  }

  /** The summaries the home screen works on carry the same total as the full bank. */
  lemma {:induction false} TotalOfSummaries(bank: seq<Test>)
    ensures TotalQuestions(GetAllTests(bank)) == TotalQuestions(bank)
    decreases |bank|
  {
    if bank != [] {
      assert GetAllTests(bank)[..|bank| - 1] == GetAllTests(bank[..|bank| - 1]);
      TotalOfSummaries(bank[..|bank| - 1]);
    }
  }
}
