/** The offline content converter (scripts/parse-questions.js): the global regular-expression
    replace chains that decode HTML entities and clean explanations, and the mapping of the
    parsed question objects of one page into the bank's `Test` records. */
module Content {
  import opened Wrappers
  import opened Text
  import opened QuestionBank

  // ---------------------------------------------------------------------------------------
  // Global replacement
  // ---------------------------------------------------------------------------------------

  /** The regular expressions the converter replaces with. None of them matches the empty
      string, so a match always consumes at least one character. */
  datatype Pattern =
    | Literal(p: string)        // the fixed text `p`
    | LiteralNoCase(p: string)  // the fixed lowercase text `p`, letters in either case
    | BreakTag                  // a line-break tag: `<br`, optional whitespace, optional `/`, `>`
    | AnyTag                    // `<`, anything but `>`, then `>`
    | NewlineRun                // three or more newlines, as many as there are

  /** The number of newlines `s` starts with. */
  function NewlinesAtStart(s: string): (k: nat)
    ensures k <= |s|
    ensures forall i :: 0 <= i < k ==> s[i] == '\n'
    ensures k == |s| || s[k] != '\n'
    decreases |s|
  {
    if s != [] && s[0] == '\n' then 1 + NewlinesAtStart(s[1..]) else 0
  }

  /** The length of the match of `pat` at the start of `s`, 0 when there is none. The
      quantifiers of the two tag patterns range over disjoint character classes, so the
      greedy match is the only one. */
  function MatchLen(pat: Pattern, s: string): (n: nat)
    ensures n <= |s|
  {
    match pat
    case Literal(p) =>
      if p != [] && StartsWith(s, p) then |p| else 0
    case LiteralNoCase(p) =>
      if p != [] && |p| <= |s| && Lower(s[..|p|]) == p then |p| else 0
    case BreakTag =>
      if 3 <= |s| && Lower(s[..3]) == "<br" then
        var k := 3 + LeadingSpaces(s[3..]);
        var k' := if k < |s| && s[k] == '/' then k + 1 else k;
        if k' < |s| && s[k'] == '>' then k' + 1 else 0
      else 0
    case AnyTag =>
      if s != [] && s[0] == '<' then
        var k := 1 + CharIndex(s[1..], '>');
        if k < |s| then k + 1 else 0
      else 0
    case NewlineRun =>
      var k := NewlinesAtStart(s);
      if k >= 3 then k else 0
  }

  /** A global replace: the scan goes left to right; a match at the scan position is replaced
      by `rep` and the scan resumes after it, otherwise one character is copied. */
  function Replace(s: string, pat: Pattern, rep: string): string
    decreases |s|
  {
    if s == [] then []
    else
      var n := MatchLen(pat, s);
      if n > 0 then rep + Replace(s[n..], pat, rep)
      else [s[0]] + Replace(s[1..], pat, rep)
  }

  datatype Step = Step(pat: Pattern, rep: string)

  /** A chain of global replaces, applied in the order listed. */
  function ReplaceChain(s: string, steps: seq<Step>): string
    decreases |steps|
  {
    if steps == [] then s
    else
      var last := steps[|steps| - 1];
      Replace(ReplaceChain(s, steps[..|steps| - 1]), last.pat, last.rep)
  }

  /** A literal whose first character does not occur in `s` leaves `s` as it is. */
  lemma {:induction false} ReplaceAbsent(s: string, p: string, rep: string)
    requires p != []
    requires forall i :: 0 <= i < |s| ==> s[i] != p[0]
    ensures Replace(s, Literal(p), rep) == s
    decreases |s|
  {
    if s != [] {
      ReplaceAbsent(s[1..], p, rep);
      assert [s[0]] + s[1..] == s;
    }
  }

  /** A replacement of at most one character never makes the text longer. */
  lemma {:induction false} ReplaceNotLonger(s: string, pat: Pattern, rep: string)
    requires |rep| <= 1
    ensures |Replace(s, pat, rep)| <= |s|
    decreases |s|
  {
    if s != [] {
      var n := MatchLen(pat, s);
      if n > 0 {
        ReplaceNotLonger(s[n..], pat, rep);
      } else {
        ReplaceNotLonger(s[1..], pat, rep);
      }
    }
  }

  /** Up to the first inserted `c`, the output of replacing literal `p` by `[c]` is the input. */
  lemma {:induction false} CopiedPrefix(s: string, p: string, c: char, len: nat)
    requires p != []
    requires len <= |Replace(s, Literal(p), [c])|
    requires forall i :: 0 <= i < len ==> Replace(s, Literal(p), [c])[i] != c
    ensures len <= |s| && Replace(s, Literal(p), [c])[..len] == s[..len]
    decreases |s|
  {
    var r := Replace(s, Literal(p), [c]);
    if s != [] && len > 0 {
      var r' := Replace(s[1..], Literal(p), [c]);
      var n := MatchLen(Literal(p), s);
      assert r[0] != c;
      assert n == 0;
      forall i | 0 <= i < len - 1 ensures r'[i] != c {
        assert r'[i] == r[i + 1];
      }
      CopiedPrefix(s[1..], p, c, len - 1);
      assert r[..len] == [s[0]] + r'[..len - 1];
      assert s[..len] == [s[0]] + s[1..][..len - 1];
    }
  }

  /** An occurrence of `p` at the start of the output was already at the start of the input. */
  lemma StartOfReplace(s: string, p: string, c: char)
    requires p != []
    requires forall i :: 0 <= i < |p| ==> p[i] != c
    ensures StartsWith(Replace(s, Literal(p), [c]), p) ==> StartsWith(s, p)
  {
    var r := Replace(s, Literal(p), [c]);
    if StartsWith(r, p) {
      forall i | 0 <= i < |p| ensures r[i] != c {
        assert r[..|p|][i] == r[i];
      }
      CopiedPrefix(s, p, c, |p|);
    }
  }

  /** Replacing every `p` by a character that `p` does not contain leaves no `p` behind: no
      new occurrence can form across a replacement. */
  lemma {:induction false} ReplaceLeavesNone(s: string, p: string, c: char)
    requires p != []
    requires forall i :: 0 <= i < |p| ==> p[i] != c
    ensures !Contains(Replace(s, Literal(p), [c]), p)
    decreases |s|
  {
    var r := Replace(s, Literal(p), [c]);
    if s != [] {
      var n := MatchLen(Literal(p), s);
      if n > 0 {
        var r' := Replace(s[n..], Literal(p), [c]);
        ReplaceLeavesNone(s[n..], p, c);
        assert r == [c] + r';
        assert r[1..] == r';
        if |p| <= |r| {
          assert r[..|p|][0] == c != p[0];
        }
      } else {
        var r' := Replace(s[1..], Literal(p), [c]);
        ReplaceLeavesNone(s[1..], p, c);
        assert r[1..] == r';
        StartOfReplace(s, p, c);
      }
    }
  }

  // ---------------------------------------------------------------------------------------
  // Entity decoding
  // ---------------------------------------------------------------------------------------

  /** The entities `decodeHtmlEntities` undoes, in the order it undoes them. */
  const EntitySteps: seq<Step> := [
    Step(Literal("&lt;"), "<"),
    Step(Literal("&gt;"), ">"),
    Step(Literal("&amp;"), "&"),
    Step(Literal("&quot;"), "\""),
    Step(Literal("&#x27;"), "'"),
    Step(Literal("&#39;"), "'"),
    Step(Literal("&apos;"), "'"),
    Step(Literal("&#x2F;"), "/"),
    Step(Literal("&nbsp;"), " ")
  ]

  /** `decodeHtmlEntities`, applied to the embedded quiz page of every test block. */
  function DecodeHtmlEntities(s: string): string
  {
    ReplaceChain(s, EntitySteps)
  }

  /** A chain of literals that all start with `&` changes nothing in a text without `&`. */
  lemma {:induction false} ChainWithoutAmpersand(s: string, steps: seq<Step>)
    requires forall i :: 0 <= i < |steps| ==>
      steps[i].pat.Literal? && steps[i].pat.p != [] && steps[i].pat.p[0] == '&'
    requires forall i :: 0 <= i < |s| ==> s[i] != '&'
    ensures ReplaceChain(s, steps) == s
    decreases |steps|
  {
    if steps != [] {
      ChainWithoutAmpersand(s, steps[..|steps| - 1]);
      var last := steps[|steps| - 1];
      ReplaceAbsent(s, last.pat.p, last.rep);
    }
  }

  /** Every entity starts with `&`, so a text without `&` decodes to itself. */
  lemma DecodeWithoutAmpersand(s: string)
    requires forall i :: 0 <= i < |s| ==> s[i] != '&'
    ensures DecodeHtmlEntities(s) == s
  {
    ChainWithoutAmpersand(s, EntitySteps);
  }

  lemma {:induction false} ChainNotLonger(s: string, steps: seq<Step>)
    requires forall i :: 0 <= i < |steps| ==> |steps[i].rep| <= 1
    ensures |ReplaceChain(s, steps)| <= |s|
    decreases |steps|
  {
    if steps != [] {
      ChainNotLonger(s, steps[..|steps| - 1]);
      var last := steps[|steps| - 1];
      ReplaceNotLonger(ReplaceChain(s, steps[..|steps| - 1]), last.pat, last.rep);
    }
  }

  /** Every entity is replaced by one character, so decoding never lengthens the text. */
  lemma DecodeNotLonger(s: string)
    ensures |DecodeHtmlEntities(s)| <= |s|
  {
    ChainNotLonger(s, EntitySteps);
  }

  /** `&nbsp;` is the last entity decoded and its replacement, a space, is not part of it;
      so no `&nbsp;` is left, even one spelled out as `&amp;nbsp;`. */
  lemma DecodeLeavesNoNbsp(s: string)
    ensures !Contains(DecodeHtmlEntities(s), "&nbsp;")
  {
    assert EntitySteps[|EntitySteps| - 1] == Step(Literal("&nbsp;"), " ");
    ReplaceLeavesNone(ReplaceChain(s, EntitySteps[..|EntitySteps| - 1]), "&nbsp;", ' ');
  }

  /** One more step of the entity chain, from a known intermediate text. */
  lemma ChainStep(s: string, k: nat, before: string, after: string)
    requires 0 < k <= |EntitySteps|
    requires ReplaceChain(s, EntitySteps[..k - 1]) == before
    requires Replace(before, EntitySteps[k - 1].pat, EntitySteps[k - 1].rep) == after
    ensures ReplaceChain(s, EntitySteps[..k]) == after
  {
    assert EntitySteps[..k][..k - 1] == EntitySteps[..k - 1];
  }

  /** No step of the entity chain from `k` on changes `t`. */
  predicate LaterStepsKeep(t: string, k: nat)
  {
    forall j :: k <= j < |EntitySteps| ==> Replace(t, EntitySteps[j].pat, EntitySteps[j].rep) == t
  }

  /** Once no later step changes the text, the rest of the chain leaves it alone. */
  lemma {:induction false} ChainRest(s: string, k: nat, t: string)
    requires k <= |EntitySteps|
    requires ReplaceChain(s, EntitySteps[..k]) == t
    requires LaterStepsKeep(t, k)
    ensures DecodeHtmlEntities(s) == t
    decreases |EntitySteps| - k
  {
    if k == |EntitySteps| {
      assert EntitySteps[..k] == EntitySteps;
    } else {
      ChainStep(s, k + 1, t, t);
      ChainRest(s, k + 1, t);
    }
  }

  /** A text that neither of the first two steps changes comes through them unchanged. */
  /** The first two decoding steps. */
  lemma FirstTwoSteps()
    ensures EntitySteps[..2] == [Step(Literal("&lt;"), "<"), Step(Literal("&gt;"), ">")]
  {
  }

  lemma FirstTwoKeep(s: string)
    requires Replace(s, Literal("&lt;"), "<") == s
    requires Replace(s, Literal("&gt;"), ">") == s
    ensures ReplaceChain(s, EntitySteps[..2]) == s
  {
    FirstTwoSteps();
    ChainKeeps(s, [Step(Literal("&lt;"), "<"), Step(Literal("&gt;"), ">")]);
  }


  /** A chain none of whose steps changes `s` leaves `s` alone. */
  lemma {:induction false} ChainKeeps(s: string, steps: seq<Step>)
    requires forall i :: 0 <= i < |steps| ==> Replace(s, steps[i].pat, steps[i].rep) == s
    ensures ReplaceChain(s, steps) == s
    decreases |steps|
  {
    if steps != [] {
      var init := steps[..|steps| - 1];
      assert forall i :: 0 <= i < |init| ==> init[i] == steps[i];
      ChainKeeps(s, init);
    }
  }

  /** A text the first two steps leave alone and the third turns into `t`, which no later
      step changes, decodes to `t`. */
  lemma DecodeByThirdStep(s: string, t: string)
    requires ReplaceChain(s, EntitySteps[..2]) == s
    requires Replace(s, Literal("&amp;"), "&") == t
    requires LaterStepsKeep(t, 3)
    ensures DecodeHtmlEntities(s) == t
  {
    ChainStep(s, 3, s, t);
    ChainRest(s, 3, t);
  }

  /** As above, with a fourth step turning the third's `t` into `u`. */
  lemma DecodeByFourthStep(s: string, t: string, u: string)
    requires ReplaceChain(s, EntitySteps[..2]) == s
    requires Replace(s, Literal("&amp;"), "&") == t
    requires Replace(t, Literal("&quot;"), "\"") == u
    requires LaterStepsKeep(u, 4)
    ensures DecodeHtmlEntities(s) == u
  {
    ChainStep(s, 3, s, t);
    ChainStep(s, 4, t, u);
    ChainRest(s, 4, u);
  }

  /** The order matters: `&lt;` is decoded before `&amp;`, so a double-escaped `&amp;lt;`
      comes out as `&lt;`. */
  lemma DecodeDoubleEscapedLt()
    ensures DecodeHtmlEntities("&amp;lt;") == "&lt;"
  {
    MissAtStart("&amp;lt;", "&lt;", "<", 1);
    MissAtStart("&amp;lt;", "&gt;", ">", 1);
    FirstTwoKeep("&amp;lt;");
    AmpLt();
    LtUnchangedLater();
    DecodeByThirdStep("&amp;lt;", "&lt;");
  }

  /** `&quot;` is decoded after `&amp;`, so a double-escaped `&amp;quot;` comes out as a
      quotation mark. */
  lemma DecodeDoubleEscapedQuot()
    ensures DecodeHtmlEntities("&amp;quot;") == "\""
  {
    MissAtStart("&amp;quot;", "&lt;", "<", 1);
    MissAtStart("&amp;quot;", "&gt;", ">", 1);
    FirstTwoKeep("&amp;quot;");
    AmpQuot();
    QuotAlone();
    QuoteUnchangedLater();
    DecodeByFourthStep("&amp;quot;", "&quot;", "\"");
  }

  lemma AmpLt()
    ensures Replace("&amp;lt;", Literal("&amp;"), "&") == "&lt;"
  {
    var s := "&amp;lt;";
    assert StartsWith(s, "&amp;");
    HitAtStart(s, "&amp;", "&");
    assert s[5..] == "lt;";
    ReplaceAbsent("lt;", "&amp;", "&");
  }

  lemma AmpQuot()
    ensures Replace("&amp;quot;", Literal("&amp;"), "&") == "&quot;"
  {
    var s := "&amp;quot;";
    assert StartsWith(s, "&amp;");
    HitAtStart(s, "&amp;", "&");
    assert s[5..] == "quot;";
    ReplaceAbsent("quot;", "&amp;", "&");
  }

  lemma QuotAlone()
    ensures Replace("&quot;", Literal("&quot;"), "\"") == "\""
  {
    assert "&quot;"[6..] == [];
  }

  lemma LtUnchangedLater()
    ensures LaterStepsKeep("&lt;", 3)
  {
    forall j | 3 <= j < |EntitySteps|
      ensures Replace("&lt;", EntitySteps[j].pat, EntitySteps[j].rep) == "&lt;"
    {
      if j == 3 {
        assert EntitySteps[3] == Step(Literal("&quot;"), "\"");
        MissAtStart("&lt;", "&quot;", "\"", 1);
      } else if j == 4 {
        assert EntitySteps[4] == Step(Literal("&#x27;"), "'");
        MissAtStart("&lt;", "&#x27;", "'", 1);
      } else if j == 5 {
        assert EntitySteps[5] == Step(Literal("&#39;"), "'");
        MissAtStart("&lt;", "&#39;", "'", 1);
      } else if j == 6 {
        assert EntitySteps[6] == Step(Literal("&apos;"), "'");
        MissAtStart("&lt;", "&apos;", "'", 1);
      } else if j == 7 {
        assert EntitySteps[7] == Step(Literal("&#x2F;"), "/");
        MissAtStart("&lt;", "&#x2F;", "/", 1);
      } else {
        assert EntitySteps[8] == Step(Literal("&nbsp;"), " ");
        MissAtStart("&lt;", "&nbsp;", " ", 1);
      }
    }
  }

  lemma QuoteUnchangedLater()
    ensures LaterStepsKeep("\"", 4)
  {
    forall j | 4 <= j < |EntitySteps|
      ensures Replace("\"", EntitySteps[j].pat, EntitySteps[j].rep) == "\""
    {
      var e := EntitySteps[j];
      assert e.pat.Literal? && e.pat.p != [] && e.pat.p[0] == '&';
      ReplaceAbsent("\"", e.pat.p, e.rep);
    }
  }

  /** No match at the first `&`, and no other `&`: nothing changes. */
  lemma MissAtStart(s: string, p: string, rep: string, k: nat)
    requires s != [] && p != [] && s[0] == p[0]
    requires k < |s| && k < |p| && s[k] != p[k]
    requires forall i :: 1 <= i < |s| ==> s[i] != p[0]
    ensures Replace(s, Literal(p), rep) == s
  {
    if |p| <= |s| {
      assert s[..|p|][k] != p[k];
    }
    ReplaceAbsent(s[1..], p, rep);
    assert [s[0]] + s[1..] == s;
  }

  /** A match at the start is replaced and the scan resumes after it. */
  lemma HitAtStart(s: string, p: string, rep: string)
    requires p != [] && StartsWith(s, p)
    ensures Replace(s, Literal(p), rep) == rep + Replace(s[|p|..], Literal(p), rep)
  {
  }

  // ---------------------------------------------------------------------------------------
  // Explanation cleaning
  // ---------------------------------------------------------------------------------------

  /** The explanation cleaner's replace chain, in order: line breaks and paragraph ends become
      newlines, every other tag goes, four entities are decoded, and runs of three or more
      newlines shrink to two. */
  const CleanSteps: seq<Step> := [
    Step(BreakTag, "\n"),
    Step(LiteralNoCase("</p>"), "\n"),
    Step(AnyTag, ""),
    Step(Literal("&nbsp;"), " "),
    Step(Literal("&amp;"), "&"),
    Step(Literal("&lt;"), "<"),
    Step(Literal("&gt;"), ">"),
    Step(NewlineRun, "\n\n")
  ]

  /** The explanation text of one question: empty when the explanation is absent or empty,
      otherwise the replace chain followed by a trim. */
  function CleanExplanation(explanation: Option<string>): string
  {
    match explanation
    case None => ""
    case Some(e) => if e == [] then "" else Trim(ReplaceChain(e, CleanSteps))
  }

  /** After shrinking the newline runs no three newlines follow each other, and the result
      starts with no more newlines than the input and never with more than two. */
  lemma {:induction false} CollapseLeavesNoTriple(s: string)
    ensures !Contains(Replace(s, NewlineRun, "\n\n"), "\n\n\n")
    ensures NewlinesAtStart(Replace(s, NewlineRun, "\n\n")) <= NewlinesAtStart(s)
    ensures NewlinesAtStart(Replace(s, NewlineRun, "\n\n")) <= 2
    decreases |s|
  {
    var r := Replace(s, NewlineRun, "\n\n");
    if s == [] {
      assert r == [];
    } else {
      var n := MatchLen(NewlineRun, s);
      if n > 0 {
        var x := Replace(s[n..], NewlineRun, "\n\n");
        CollapseLeavesNoTriple(s[n..]);
        assert NewlinesAtStart(s[n..]) == 0;
        assert r == "\n\n" + x;
        assert r[1..] == "\n" + x && r[1..][1..] == x;
        assert NewlinesAtStart(r[1..]) == 1;
        TripleNewlineStart(r);
        TripleNewlineStart(r[1..]);
      } else {
        var x := Replace(s[1..], NewlineRun, "\n\n");
        CollapseLeavesNoTriple(s[1..]);
        assert r == [s[0]] + x;
        assert r[1..] == x;
        if s[0] == '\n' {
          assert NewlinesAtStart(s) == 1 + NewlinesAtStart(s[1..]);
          assert NewlinesAtStart(r) == 1 + NewlinesAtStart(x);
        }
        TripleNewlineStart(r);
      }
    }
  }

  lemma TripleNewlineStart(s: string)
    ensures StartsWith(s, "\n\n\n") <==> NewlinesAtStart(s) >= 3
  {
    if StartsWith(s, "\n\n\n") {
      assert s[0] == s[..3][0] && s[1] == s[..3][1] && s[2] == s[..3][2];
    }
    if NewlinesAtStart(s) >= 3 {
      assert s[..3] == "\n\n\n";
    }
  }

  /** Trimming takes a slice, so it cannot create an occurrence. */
  lemma TrimKeepsAbsence(s: string, t: string)
    ensures Contains(Trim(s), t) ==> Contains(s, t)
  {
    var a := LeadingSpaces(s);
    if Contains(Trim(s), t) {
      ContainsInSlice(s, a, a + |Trim(s)|, t);
    }
  }

  lemma CleanChainNoTriple(e: string)
    ensures !Contains(ReplaceChain(e, CleanSteps), "\n\n\n")
  {
    var steps := CleanSteps;
    assert steps[|steps| - 1] == Step(NewlineRun, "\n\n");
    CollapseLeavesNoTriple(ReplaceChain(e, steps[..|steps| - 1]));
  }

  /** A cleaned explanation is trimmed and has at most one blank line in a row. */
  lemma CleanedExplanationShape(explanation: Option<string>)
    ensures explanation == None || explanation == Some([]) ==> CleanExplanation(explanation) == []
    ensures var r := CleanExplanation(explanation);
      r == [] || (!IsSpace(r[0]) && !IsSpace(r[|r| - 1]))
    ensures !Contains(CleanExplanation(explanation), "\n\n\n")
  {
    if explanation.Some? && explanation.value != [] {
      var c := ReplaceChain(explanation.value, CleanSteps);
      CleanChainNoTriple(explanation.value);
      TrimKeepsAbsence(c, "\n\n\n");
    }
  }

  // ---------------------------------------------------------------------------------------
  // Records
  // ---------------------------------------------------------------------------------------

  /** A value of the parsed question file, as far as JavaScript truthiness goes. */
  datatype Value = Undefined | Null | Bool(b: bool) | Number(x: real) | NaN | Str(s: string) | Object

  /** `!!v`. */
  predicate Truthy(v: Value)
  {
    match v
    case Undefined => false
    case Null => false
    case Bool(b) => b
    case Number(x) => x != 0.0
    case NaN => false
    case Str(s) => s != []
    case Object => true
  }

  datatype RawOption = RawOption(optionLabel: string, text: string, correct: Value)

  /** A parsed question object; a missing field and a `null` one are both `None`. */
  datatype RawQuestion = RawQuestion(
    text: Option<string>,
    options: Option<seq<RawOption>>,
    correctAnswer: Option<string>,
    explanation: Option<string>)

  /** `v || d` for a text field: a missing or empty text gives `d`. */
  function TextOr(v: Option<string>, d: string): (r: string)
    ensures v.Some? && v.value != [] ==> r == v.value
    ensures v.None? ==> r == d
  {
    if v.Some? && v.value != [] then v.value else d
  }

  function BuildOption(o: RawOption): QuestionOption
  {
    QuestionOption(o.optionLabel, o.text, Truthy(o.correct))
  }

  /** The record for the question at position `idx` of the parsed array. */
  function BuildQuestion(q: RawQuestion, idx: nat): Question
  {
    var options := if q.options.Some? then q.options.value else [];
    Question(
      idx + 1,
      Trim(TextOr(q.text, "")),
      seq(|options|, i requires 0 <= i < |options| => BuildOption(options[i])),
      TextOr(q.correctAnswer, ""),
      CleanExplanation(q.explanation))
  }

  /** The `map` over the parsed question array. */
  function CleanQuestions(raws: seq<RawQuestion>): seq<Question>
  {
    seq(|raws|, i requires 0 <= i < |raws| => BuildQuestion(raws[i], i))
  }

  /** The cleaned questions keep the parsed order and are numbered 1 to n; each text is
      trimmed; options keep their order, label and text, and `correct` is the option's
      truthiness; each explanation is cleaned. */
  lemma CleanQuestionsShape(raws: seq<RawQuestion>)
    ensures |CleanQuestions(raws)| == |raws|
    ensures forall i :: 0 <= i < |raws| ==> CleanQuestions(raws)[i].id == i + 1
    ensures forall i :: 0 <= i < |raws| ==>
      var text := CleanQuestions(raws)[i].text;
      text == Trim(TextOr(raws[i].text, "")) && (text == [] || (!IsSpace(text[0]) && !IsSpace(text[|text| - 1])))
    ensures forall i :: 0 <= i < |raws| ==>
      |CleanQuestions(raws)[i].options| == if raws[i].options.Some? then |raws[i].options.value| else 0
    ensures forall i, j :: 0 <= i < |raws| && raws[i].options.Some? && 0 <= j < |raws[i].options.value| ==>
      var o := raws[i].options.value[j];
      CleanQuestions(raws)[i].options[j] == QuestionOption(o.optionLabel, o.text, Truthy(o.correct))
    ensures forall i :: 0 <= i < |raws| ==> CleanQuestions(raws)[i].correctAnswer == TextOr(raws[i].correctAnswer, "")
    ensures forall i :: 0 <= i < |raws| ==> CleanQuestions(raws)[i].explanation == CleanExplanation(raws[i].explanation)
    ensures forall i :: 0 <= i < |raws| ==> !Contains(CleanQuestions(raws)[i].explanation, "\n\n\n")
  {
    forall i | 0 <= i < |raws| ensures !Contains(CleanQuestions(raws)[i].explanation, "\n\n\n") {
      CleanedExplanationShape(raws[i].explanation);
    }
    forall i, j | 0 <= i < |raws| && raws[i].options.Some? && 0 <= j < |raws[i].options.value|
      ensures CleanQuestions(raws)[i].options[j] == BuildOption(raws[i].options.value[j])
    {
      assert CleanQuestions(raws)[i] == BuildQuestion(raws[i], i);
    }
  }

  /** Question ids are distinct: equal ids mean the same position. */
  lemma QuestionIdsDistinct(raws: seq<RawQuestion>, i: nat, j: nat)
    requires i < |raws| && j < |raws|
    ensures CleanQuestions(raws)[i].id == CleanQuestions(raws)[j].id <==> i == j
  {
  }

  /** The converter's default test length in minutes. */
  const DefaultMinutes := 210

  /** The `Test` record of one block: the id joins the file key and the block number with an
      underscore, the heading is trimmed, and the minutes come from the page's own timer
      setting when one is found. */
  function BuildTest(fileKey: string, testId: string, heading: string, minutes: Option<nat>,
                     raws: seq<RawQuestion>): Test
  {
    var questions := CleanQuestions(raws);
    Test(fileKey + "_" + testId, Trim(heading), |questions|,
         if minutes.Some? then minutes.value else DefaultMinutes, questions)
  }

  /** The record's name is the trimmed heading, its questions are the cleaned ones, its
      count is their number, and the length defaults to 210 minutes. */
  lemma BuildTestShape(fileKey: string, testId: string, heading: string, minutes: Option<nat>,
                       raws: seq<RawQuestion>)
    ensures var t := BuildTest(fileKey, testId, heading, minutes, raws);
      && t.name == Trim(heading)
      && t.questions == CleanQuestions(raws)
      && t.questionCount == |t.questions| == |raws|
      && (minutes.None? ==> t.duration == DefaultMinutes)
      && (minutes.Some? ==> t.duration == minutes.value)
      && StartsWith(t.id, fileKey + "_")
      && t.id[|fileKey| + 1..] == testId
  {
    var t := BuildTest(fileKey, testId, heading, minutes, raws);
    assert t.id[..|fileKey| + 1] == fileKey + "_";
  }

  /** The file key: `btrs` for the file whose path mentions `BTR's`, `btr` otherwise. */
  function FileKey(path: string): (key: string)
    ensures key == "btr" || key == "btrs"
  {
    if Contains(path, "BTR's") then "btrs" else "btr"
  }

  /** A text in which some character of `t` never occurs does not contain `t`. */
  lemma {:induction false} MissingCharNotContained(s: string, t: string, k: nat)
    requires k < |t|
    requires forall i :: 0 <= i < |s| ==> s[i] != t[k]
    ensures !Contains(s, t)
    decreases |s|
  {
    if |t| <= |s| {
      assert s[..|t|][k] != t[k];
    }
    if s != [] {
      MissingCharNotContained(s[1..], t, k);
    }
  }

  /** The two page files the converter reads. */
  const FirstPage := "CEREB_BTR's_1771106306560.html"
  const SecondPage := "CEREB_BTR_1771106306560.html"

  /** The first page gets the key `btrs`, wherever it lives. */
  lemma FileKeyOfFirstPage(dir: string)
    ensures FileKey(dir + FirstPage) == "btrs"
  {
    var path := dir + FirstPage;
    forall k | 0 <= k < 5 ensures path[|dir| + 6..|dir| + 11][k] == "BTR's"[k] {
      assert path[|dir| + 6 + k] == FirstPage[6 + k];
    }
    assert path[|dir| + 6..|dir| + 11] == "BTR's";
    ContainsAt(path, "BTR's", |dir| + 6);
  }

  /** The second page gets the key `btr`, unless the directory name has an apostrophe. */
  lemma FileKeyOfSecondPage(dir: string)
    requires forall i :: 0 <= i < |dir| ==> dir[i] != '\''
    ensures FileKey(dir + SecondPage) == "btr"
  {
    var path := dir + SecondPage;
    forall i | 0 <= i < |path| ensures path[i] != "BTR's"[3] {
      if i >= |dir| {
        assert path[i] == SecondPage[i - |dir|];
      }
    }
    MissingCharNotContained(path, "BTR's", 3);
  }

  /** Test ids of the two files never collide, and within one file they are distinct exactly
      when the block numbers are. */
  lemma TestIdsDistinct(key1: string, key2: string, id1: string, id2: string)
    requires key1 == "btr" || key1 == "btrs"
    requires key2 == "btr" || key2 == "btrs"
    ensures key1 + "_" + id1 == key2 + "_" + id2 <==> key1 == key2 && id1 == id2
  {
    var a, b := key1 + "_" + id1, key2 + "_" + id2;
    if a == b {
      assert a[3] == b[3];
      assert key1 == key2;
      assert a[|key1| + 1..] == id1 && b[|key2| + 1..] == id2;
    }
  }

  // ---------------------------------------------------------------------------------------
  // Extraction loop
  // ---------------------------------------------------------------------------------------

  /** What the page's script yields for one block: the parsed question array and, when the
      page sets its timer, the minutes it sets. */
  datatype Payload = Payload(questions: seq<RawQuestion>, minutes: Option<nat>)

  /** One test block of the page: its number, its heading and, unless the question array was
      not found or did not parse, the payload. */
  datatype TestBlock = TestBlock(testId: string, heading: string, payload: Option<Payload>)

  /** The tests of the blocks, in page order; a block without a payload is skipped. */
  function Extracted(fileKey: string, blocks: seq<TestBlock>): seq<Test>
    decreases |blocks|
  {
    if blocks == [] then []
    else
      var init := Extracted(fileKey, blocks[..|blocks| - 1]);
      var b := blocks[|blocks| - 1];
      match b.payload
      case None => init
      case Some(p) => init + [BuildTest(fileKey, b.testId, b.heading, p.minutes, p.questions)]
  }

  /** The loop of `extractTestsFromHTML` over the blocks already found in the page. */
  method ExtractTests(fileKey: string, blocks: seq<TestBlock>) returns (tests: seq<Test>)
    ensures tests == Extracted(fileKey, blocks)
  {
    tests := [];
    var i := 0;
    while i < |blocks|
      invariant 0 <= i <= |blocks|
      invariant tests == Extracted(fileKey, blocks[..i])
    {
      var b := blocks[i];
      assert blocks[..i + 1][..i] == blocks[..i];
      if b.payload.Some? {
        var p := b.payload.value;
        tests := tests + [BuildTest(fileKey, b.testId, b.heading, p.minutes, p.questions)];
      }
      i := i + 1;
    }
    assert blocks[..|blocks|] == blocks;
  }

  /** Concatenated pages give concatenated test lists. */
  lemma {:induction false} ExtractedAppend(fileKey: string, a: seq<TestBlock>, b: seq<TestBlock>)
    ensures Extracted(fileKey, a + b) == Extracted(fileKey, a) + Extracted(fileKey, b)
    decreases |b|
  {
    if b == [] {
      assert a + b == a;
    } else {
      ExtractedAppend(fileKey, a, b[..|b| - 1]);
      assert (a + b)[..|a + b| - 1] == a + b[..|b| - 1];
    }
  }

  /** `t` is the record the converter builds for block `b`. */
  predicate BuiltFrom(fileKey: string, b: TestBlock, t: Test)
  {
    b.payload.Some? &&
    t == BuildTest(fileKey, b.testId, b.heading, b.payload.value.minutes, b.payload.value.questions)
  }

  /** The extracted tests are exactly the records of the blocks with a payload: each test is
      built from one of the blocks, and every block with a payload gives one of the tests. */
  lemma {:induction false} ExtractedFromBlocks(fileKey: string, blocks: seq<TestBlock>)
    ensures |Extracted(fileKey, blocks)| <= |blocks|
    ensures forall t :: t in Extracted(fileKey, blocks) ==>
      exists b :: b in blocks && BuiltFrom(fileKey, b, t)
    ensures forall b :: b in blocks && b.payload.Some? ==>
      BuildTest(fileKey, b.testId, b.heading, b.payload.value.minutes, b.payload.value.questions)
        in Extracted(fileKey, blocks)
    decreases |blocks|
  {
    if blocks != [] {
      var init := blocks[..|blocks| - 1];
      var last := blocks[|blocks| - 1];
      ExtractedFromBlocks(fileKey, init);
      assert blocks == init + [last];
      var ts := Extracted(fileKey, blocks);
      var ts0 := Extracted(fileKey, init);
      assert last.payload.None? ==> ts == ts0;
      assert last.payload.Some? ==> ts == ts0 + [BuildTest(fileKey, last.testId, last.heading,
        last.payload.value.minutes, last.payload.value.questions)];
      forall t | t in ts ensures exists b :: b in blocks && BuiltFrom(fileKey, b, t) {
        if t in ts0 {
          var b :| b in init && BuiltFrom(fileKey, b, t);
          assert b in blocks;
        } else {
          assert BuiltFrom(fileKey, last, t);
        }
      }
      forall b | b in blocks && b.payload.Some?
        ensures BuildTest(fileKey, b.testId, b.heading, b.payload.value.minutes, b.payload.value.questions) in ts
      {
        if b != last {
          assert b in init;
        }
      }
    }
  }

  /** Every extracted test counts its own questions, numbers them from 1 and carries the
      file's key. */
  lemma ExtractedShape(fileKey: string, blocks: seq<TestBlock>)
    ensures forall t :: t in Extracted(fileKey, blocks) ==>
      && t.questionCount == |t.questions|
      && StartsWith(t.id, fileKey + "_")
      && forall i :: 0 <= i < |t.questions| ==> t.questions[i].id == i + 1
  {
    ExtractedFromBlocks(fileKey, blocks);
    forall t | t in Extracted(fileKey, blocks)
      ensures t.questionCount == |t.questions| && StartsWith(t.id, fileKey + "_")
    {
      var b :| b in blocks && BuiltFrom(fileKey, b, t);
      var p := b.payload.value;
      BuildTestShape(fileKey, b.testId, b.heading, p.minutes, p.questions);
    }
  }
}
