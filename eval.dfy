/** scripts/eval.ts: each test question is sent to the agent, the answer is flattened
    to lower-case text, and the test passes when every required term occurs in it and
    the answer cites enough sources. The HTTP request and the test file are parameters;
    latency, token and cost totals are not modelled. */
module Eval {
  import opened Js

  // ---------------------------------------------------------------- data

  /** `plan`: one text or a list of steps. */
  datatype Plan = PlanText(text: string) | PlanSteps(steps: seq<string>)

  /** The fields of `AgentResult` the grading reads; `citations` is any JSON value, since
      only an array of it is counted. */
  datatype AgentResult = AgentResult(
    summary: Option<string>,
    plan: Option<Plan>,
    assumptions: Option<seq<string>>,
    nextSteps: Option<string>,
    citations: Option<Json>,
    raw: Option<string>)

  datatype TestCase = TestCase(q: string, must: Option<seq<string>>, minCitations: Option<real>)

  /** What asking the agent gives: the request threw, or a response with its status and
      its body read as JSON (the `result` member, None when absent, or why the body is
      not JSON). */
  datatype AskOutcome =
    | Thrown(message: string)
    | Reply(status: int, body: Result<Option<AgentResult>, string>)

  /** Why a test fails. */
  datatype Reason =
    | MissingTerm(term: string)
    | TooFewCitations(count: nat, required: real)
    | RequestFailed(message: string)

  /** The TypeError thrown when the response has no `result` and its citations are read. */
  const NoResultMessage: string := "Cannot read properties of undefined (reading 'citations')"

  // ---------------------------------------------------------------- flatten

  /** A string field that is present and non-empty (JavaScript truthiness). */
  predicate Truthy(s: Option<string>)
  {
    s.Some? && s.value != ""
  }

  /** The texts `flatten` pushes, in order. */
  function Parts(r: AgentResult): seq<string>
  {
    (if Truthy(r.summary) then [r.summary.value] else [])
    + (if r.plan.Some? && r.plan.value != PlanText("") then [PlanPart(r.plan.value)] else [])
    + (if r.assumptions.Some? && r.assumptions.value != [] then [Join(r.assumptions.value, "\n")] else [])
    + (if Truthy(r.nextSteps) then [r.nextSteps.value] else [])
    + (if Truthy(r.raw) then [r.raw.value] else [])
  }

  /** `flatten`: the pushed texts joined by newlines, lower-cased; empty for no result. */
  function Flatten(r: Option<AgentResult>): string
  {
    if r.None? then "" else Lower(Join(Parts(r.value), "\n"))
  }

  /** The text `flatten` pushes for the plan, when it pushes one. */
  function PlanPart(p: Plan): string
  {
    match p
    case PlanText(t) => t
    case PlanSteps(steps) => Join(steps, "\n")
  }

  /** `Contains` seen through lower-casing. */
  lemma ContainsLower(s: string, t: string)
    requires Contains(s, t)
    ensures Contains(Lower(s), Lower(t))
  {
    var i :| 0 <= i <= |s| && StartsWith(s[i..], t);
    var l := Lower(s)[i..][..|t|];
    forall x | 0 <= x < |t| ensures l[x] == Lower(t)[x] {
      assert s[i..][..|t|][x] == t[x];
    }
    assert l == Lower(t);
  }

  /** Every text `flatten` pushes is found, lower-cased, in its result, and a result with
      nothing to push flattens to the empty text, as does no result. */
  lemma FlattenShows(r: AgentResult)
    ensures Truthy(r.summary) ==> Contains(Flatten(Some(r)), Lower(r.summary.value))
    ensures r.plan.Some? && PlanPart(r.plan.value) != [] ==> Contains(Flatten(Some(r)), Lower(PlanPart(r.plan.value)))
    ensures r.plan.Some? && r.plan.value.PlanSteps? ==>
      forall k :: 0 <= k < |r.plan.value.steps| ==> Contains(Flatten(Some(r)), Lower(r.plan.value.steps[k]))
    ensures r.assumptions.Some? ==>
      forall k :: 0 <= k < |r.assumptions.value| ==> Contains(Flatten(Some(r)), Lower(r.assumptions.value[k]))
    ensures Truthy(r.nextSteps) ==> Contains(Flatten(Some(r)), Lower(r.nextSteps.value))
    ensures Truthy(r.raw) ==> Contains(Flatten(Some(r)), Lower(r.raw.value))
    ensures Parts(r) == [] ==> Flatten(Some(r)) == []
    ensures Flatten(None) == []
  {
    var ps := Parts(r);
    var all := Join(ps, "\n");
    forall k | 0 <= k < |ps| ensures Contains(Flatten(Some(r)), Lower(ps[k])) {
      JoinContains(ps, "\n", k);
      ContainsLower(all, ps[k]);
    }
    if r.plan.Some? && r.plan.value.PlanSteps? {
      var steps := r.plan.value.steps;
      forall k | 0 <= k < |steps| ensures Contains(Flatten(Some(r)), Lower(steps[k])) {
        JoinContains(steps, "\n", k);
        PartShown(r, Join(steps, "\n"), steps[k]);
      }
    }
    if r.assumptions.Some? {
      var xs := r.assumptions.value;
      forall k | 0 <= k < |xs| ensures Contains(Flatten(Some(r)), Lower(xs[k])) {
        JoinContains(xs, "\n", k);
        PartShown(r, Join(xs, "\n"), xs[k]);
      }
    }
    FlattenFields(r);
  }

  /** Text found in one of the pushed parts is found in the flattened result. */
  lemma PartShown(r: AgentResult, part: string, t: string)
    requires part in Parts(r) && Contains(part, t)
    ensures Contains(Flatten(Some(r)), Lower(t))
  {
    var ps := Parts(r);
    var k :| 0 <= k < |ps| && ps[k] == part;
    JoinContains(ps, "\n", k);
    ContainsTrans(Join(ps, "\n"), part, t);
    ContainsLower(Join(ps, "\n"), t);
  }

  /** Text found in a text found in `s` is found in `s`. */
  lemma ContainsTrans(s: string, u: string, t: string)
    requires Contains(s, u) && Contains(u, t)
    ensures Contains(s, t)
  {
    var i :| 0 <= i <= |s| && StartsWith(s[i..], u);
    var j :| 0 <= j <= |u| && StartsWith(u[j..], t);
    forall x | 0 <= x < |t| ensures s[i + j + x] == t[x] {
      assert s[i..][..|u|][j + x] == u[j + x];
      assert u[j..][..|t|][x] == t[x];
    }
    assert s[i + j..][..|t|] == t;
  }

  /** Which field makes which part. */
  lemma FlattenFields(r: AgentResult)
    ensures Truthy(r.summary) ==> r.summary.value in Parts(r)
    ensures r.plan.Some? && PlanPart(r.plan.value) != [] ==> PlanPart(r.plan.value) in Parts(r)
    ensures r.plan.Some? && r.plan.value.PlanSteps? ==> Join(r.plan.value.steps, "\n") in Parts(r)
    ensures r.assumptions.Some? && r.assumptions.value != [] ==> Join(r.assumptions.value, "\n") in Parts(r)
    ensures Truthy(r.nextSteps) ==> r.nextSteps.value in Parts(r)
    ensures Truthy(r.raw) ==> r.raw.value in Parts(r)
  {
  }

  // ---------------------------------------------------------------- one test

  /** Every required term occurs in the flattened answer, ignoring ASCII case. */
  predicate AllFound(text: string, must: seq<string>)
  {
    forall m :: m in must ==> Contains(text, Lower(m))
  }

  /** A "missing term" reason for each required term not found, in order. */
  function MissingTerms(text: string, must: seq<string>): (r: seq<Reason>)
    ensures |r| <= |must|
    ensures forall x :: x in r ==> x.MissingTerm?
  {
    if must == [] then []
    else (if Contains(text, Lower(must[0])) then [] else [MissingTerm(must[0])]) + MissingTerms(text, must[1..])
  }

  /** The reasons name exactly the required terms not found. */
  lemma {:induction false} MissingTermsIff(text: string, must: seq<string>)
    ensures forall m :: MissingTerm(m) in MissingTerms(text, must) <==> m in must && !Contains(text, Lower(m))
  {
    if must != [] {
      MissingTermsIff(text, must[1..]);
      assert must == [must[0]] + must[1..];
    }
  }

  /** No reason is given exactly when every term is found. */
  lemma MissingNone(text: string, must: seq<string>)
    ensures MissingTerms(text, must) == [] <==> AllFound(text, must)
  {
    var r := MissingTerms(text, must);
    MissingTermsIff(text, must);
    if r != [] {
      assert r[0] in r;
      assert MissingTerm(r[0].term) in r;
    }
  }

  /** The inner loop of `run` over the required terms. */
  method CheckTerms(text: string, must: seq<string>) returns (ok: bool, reasons: seq<Reason>)
    ensures reasons == MissingTerms(text, must)
    ensures ok <==> AllFound(text, must)
    ensures ok <==> reasons == []
  {
    ok := true;
    reasons := [];
    var k := 0;
    while k < |must|
      invariant k <= |must|
      invariant MissingTerms(text, must) == reasons + MissingTerms(text, must[k..])
      invariant ok <==> reasons == []
    {
      MissingTermsAt(text, must, k);
      if !Contains(text, Lower(must[k])) {
        ok := false;
        reasons := reasons + [MissingTerm(must[k])];
      }
      k := k + 1;
    }
    assert must[k..] == [];
    assert reasons + [] == reasons;
    MissingNone(text, must);
  }

  lemma MissingTermsAt(text: string, must: seq<string>, k: nat)
    requires k < |must|
    ensures MissingTerms(text, must[k..])
      == (if Contains(text, Lower(must[k])) then [] else [MissingTerm(must[k])]) + MissingTerms(text, must[k + 1..])
  {
    assert must[k..][1..] == must[k + 1..];
  }

  /** The number of citations: the length of an array, 0 for anything else. */
  function CitationCount(c: Option<Json>): nat
  {
    if c.Some? && c.value.JArr? then |c.value.elems| else 0
  }

  /** The outcome of one test: whether it passes and the reasons it fails. */
  datatype Graded = Graded(ok: bool, reasons: seq<Reason>)

  function Terms(t: TestCase): seq<string>
  {
    if t.must.Some? then t.must.value else []
  }

  function MinCitations(t: TestCase): real
  {
    if t.minCitations.Some? then t.minCitations.value else 0.0
  }

  /** How `run` grades one test from the agent's answer. */
  function Verdict(t: TestCase, answer: AskOutcome): Graded
  {
    match answer
    case Thrown(m) => Graded(false, [RequestFailed(m)])
    case Reply(status, body) =>
      if !(200 <= status <= 299) then Graded(false, [RequestFailed("HTTP " + IntToString(status))])
      else match body
        case Failure(m) => Graded(false, [RequestFailed(m)])
        case Success(None) =>
          Graded(false, MissingTerms("", Terms(t)) + [RequestFailed(NoResultMessage)])
        case Success(Some(r)) =>
          var c := CitationCount(r.citations);
          var reasons := MissingTerms(Flatten(Some(r)), Terms(t))
            + (if (c as real) < MinCitations(t) then [TooFewCitations(c, MinCitations(t))] else []);
          Graded(reasons == [], reasons)
  }

  /** A test with an answer passes exactly when every required term occurs in the
      flattened answer, ignoring ASCII case, and the answer cites at least `minCitations`
      sources (0 when unset); a failing test has a reason for each failed check. */
  lemma VerdictAnswered(t: TestCase, status: int, r: AgentResult)
    requires 200 <= status <= 299
    ensures var v := Verdict(t, Reply(status, Success(Some(r))));
      && (v.ok <==> AllFound(Flatten(Some(r)), Terms(t)) && CitationCount(r.citations) as real >= MinCitations(t))
      && (forall m :: m in Terms(t) && !Contains(Flatten(Some(r)), Lower(m)) ==> MissingTerm(m) in v.reasons)
      && (CitationCount(r.citations) as real < MinCitations(t) ==>
            TooFewCitations(CitationCount(r.citations), MinCitations(t)) in v.reasons)
      && (forall x :: x in v.reasons ==> !x.RequestFailed?)
  {
    MissingNone(Flatten(Some(r)), Terms(t));
    MissingTermsIff(Flatten(Some(r)), Terms(t));
  }

  /** A request that throws, a status outside 200-299, a body that is not JSON and a
      response without `result` all fail the test, with a "request failed" reason last. */
  lemma VerdictRequestFailed(t: TestCase, answer: AskOutcome)
    requires || answer.Thrown?
             || (answer.Reply? && !(200 <= answer.status <= 299))
             || (answer.Reply? && answer.body.Failure?)
             || (answer.Reply? && answer.body.Success? && answer.body.value.None?)
    ensures var v := Verdict(t, answer);
      && !v.ok
      && |v.reasons| >= 1 && v.reasons[|v.reasons| - 1].RequestFailed?
      && forall i :: 0 <= i < |v.reasons| - 1 ==> v.reasons[i].MissingTerm?
    ensures answer.Thrown? ==> Verdict(t, answer).reasons == [RequestFailed(answer.message)]
    ensures answer.Reply? && !(200 <= answer.status <= 299) ==>
      Verdict(t, answer).reasons == [RequestFailed("HTTP " + IntToString(answer.status))]
  {
    var v := Verdict(t, answer);
    if answer.Reply? && 200 <= answer.status <= 299 && answer.body.Success? {
      var ms := MissingTerms("", Terms(t));
      assert v.reasons == ms + [RequestFailed(NoResultMessage)];
      forall i | 0 <= i < |v.reasons| - 1 ensures v.reasons[i].MissingTerm? {
        assert v.reasons[i] == ms[i] && ms[i] in ms;
      }
    }
  }

  /** The body of the loop in `run` for one test. */
  method RunTest(t: TestCase, answer: AskOutcome) returns (g: Graded)
    ensures g == Verdict(t, answer)
  {
    match answer {
      case Thrown(m) =>
        return Graded(false, [RequestFailed(m)]);
      case Reply(status, body) =>
        if !(200 <= status <= 299) {
          return Graded(false, [RequestFailed("HTTP " + IntToString(status))]);
        }
        if body.Failure? {
          return Graded(false, [RequestFailed(body.error)]);
        }
        var text := Flatten(body.value);
        var ok, reasons := CheckTerms(text, Terms(t));
        if body.value.None? {
          return Graded(false, reasons + [RequestFailed(NoResultMessage)]);
        }
        var c := CitationCount(body.value.value.citations);
        var minC := MinCitations(t);
        if (c as real) < minC {
          ok := false;
          reasons := reasons + [TooFewCitations(c, minC)];
        }
        return Graded(ok, reasons);
    }
  }

  // ---------------------------------------------------------------- the run

  /** How many of the verdicts pass. */
  function PassCount(vs: seq<Graded>): (c: nat)
    ensures c <= |vs|
  {
    if vs == [] then 0 else PassCount(vs[..|vs| - 1]) + (if vs[|vs| - 1].ok then 1 else 0)
  }

  /** All verdicts pass exactly when the count reaches their number. */
  lemma {:induction false} PassCountAll(vs: seq<Graded>)
    ensures PassCount(vs) == |vs| <==> forall i :: 0 <= i < |vs| ==> vs[i].ok
  {
    if vs != [] {
      PassCountAll(vs[..|vs| - 1]);
      assert forall i :: 0 <= i < |vs| - 1 ==> vs[..|vs| - 1][i] == vs[i];
    }
  }

  /** The divisor of the averages: `Math.max(1, n)`. */
  function AverageDivisor(n: nat): (d: nat)
    ensures d >= 1 && d >= n && (n > 0 ==> d == n)
  {
    if n < 1 then 1 else n
  }

  /** The verdicts of the first `n` tests; test `i` is answered by `ask(i, q)`. */
  function Verdicts(tests: seq<TestCase>, ask: (nat, string) -> AskOutcome, n: nat): (vs: seq<Graded>)
    requires n <= |tests|
    ensures |vs| == n
  {
    if n == 0 then [] else Verdicts(tests, ask, n - 1) + [Verdict(tests[n - 1], ask(n - 1, tests[n - 1].q))]
  }

  /** `run` after the tests are loaded: each test's verdict, the pass count, the divisor
      of the averages, and the exit status, 0 exactly when every test passed. */
  method Run(tests: seq<TestCase>, ask: (nat, string) -> AskOutcome)
    returns (verdicts: seq<Graded>, pass: nat, divisor: nat, exitCode: int)
    ensures verdicts == Verdicts(tests, ask, |tests|)
    ensures pass == PassCount(verdicts) && pass <= |tests|
    ensures divisor == AverageDivisor(|tests|)
    ensures exitCode == 0 <==> forall i :: 0 <= i < |tests| ==> verdicts[i].ok
    ensures exitCode == 0 || exitCode == 1
  {
    pass := 0;
    verdicts := [];
    for i := 0 to |tests|
      invariant verdicts == Verdicts(tests, ask, i)
      invariant pass == PassCount(verdicts)
    {
      var g := RunTest(tests[i], ask(i, tests[i].q));
      var prev := verdicts;
      verdicts := prev + [g];
      assert verdicts[..|verdicts| - 1] == prev;
      if g.ok {
        pass := pass + 1;
      }
    }
    divisor := if 1 < |tests| then |tests| else 1;
    PassCountAll(verdicts);
    exitCode := if pass == |tests| then 0 else 1;
  }

  /** Test `i`'s verdict is its answer graded. */
  lemma {:induction false} VerdictsAt(tests: seq<TestCase>, ask: (nat, string) -> AskOutcome, n: nat, i: nat)
    requires i < n <= |tests|
    ensures Verdicts(tests, ask, n)[i] == Verdict(tests[i], ask(i, tests[i].q))
  {
    if i < n - 1 {
      VerdictsAt(tests, ask, n - 1, i);
    }
  }

  // ---------------------------------------------------------------- the test file

  /** The test used when the file cannot be read or parsed. */
  const DefaultTest: TestCase :=
    TestCase("Give me a 2-day Kyoto plan with an early Fushimi Inari visit and a budget focus.",
             Some(["Fushimi", "budget"]), Some(1.0))

  /** A list of strings, or None when some element is not a string. */
  function Strings(js: seq<Json>): (r: Option<seq<string>>)
    ensures r.Some? ==> |r.value| == |js| && forall i :: 0 <= i < |js| ==> js[i] == JStr(r.value[i])
  {
    if js == [] then Some([])
    else match (js[0], Strings(js[1..]))
      case (JStr(s), Some(rest)) => Some([s] + rest)
      case _ => None
  }

  /** A test object: `q` a string, `must` absent or null (no terms) or an array of
      strings, `minCitations` absent or null (0) or a number. */
  function TestOf(j: Json): Option<TestCase>
  {
    match (Member(j, "q"), MustOf(Member(j, "must")), MinOf(Member(j, "minCitations")))
    case (Some(JStr(q)), Some(must), Some(minC)) => Some(TestCase(q, must, minC))
    case _ => None
  }

  /** The `must` member: absent or null means no terms; None when it is not an array of
      strings. */
  function MustOf(m: Option<Json>): Option<Option<seq<string>>>
  {
    match m
    case None => Some(None)
    case Some(JNull) => Some(None)
    case Some(JArr(es)) => (match Strings(es) case Some(ss) => Some(Some(ss)) case None => None)
    case _ => None
  }

  /** The `minCitations` member: absent or null means unset; None when it is not a number. */
  function MinOf(m: Option<Json>): Option<Option<real>>
  {
    match m
    case None => Some(None)
    case Some(JNull) => Some(None)
    case Some(JNum(n)) => Some(Some(n))
    case _ => None
  }

  function TestsOf(js: seq<Json>): Option<seq<TestCase>>
  {
    if js == [] then Some([])
    else match (TestOf(js[0]), TestsOf(js[1..]))
      case (Some(t), Some(rest)) => Some([t] + rest)
      case _ => None
  }

  /** `loadTests`: the tests in the file, the default test when the file cannot be read
      or is not JSON, and None for JSON of another shape. */
  function LoadTests(file: FileRead, parse: JsonParser): (r: Option<seq<TestCase>>)
    ensures !file.Contents? ==> r == Some([DefaultTest])
    ensures file.Contents? && parse(file.text).Failure? ==> r == Some([DefaultTest])
  {
    if !file.Contents? then Some([DefaultTest])
    else match parse(file.text)
      case Failure(_) => Some([DefaultTest])
      case Success(JArr(es)) => TestsOf(es)
      case Success(_) => None
  }

  /** A parsed file yields one test per element, each element's own reading. */
  lemma {:induction false} TestsOfShape(js: seq<Json>)
    requires TestsOf(js).Some?
    ensures |TestsOf(js).value| == |js|
    ensures forall i :: 0 <= i < |js| ==> TestOf(js[i]) == Some(TestsOf(js).value[i])
  {
    if js != [] {
      TestsOfShape(js[1..]);
    }
  }

  /** A test written out as the JSON object the file holds. */
  function TestJson(t: TestCase): Json
  {
    JObj([("q", JStr(t.q))]
      + (if t.must.Some? then [("must", JArr(JStrs(t.must.value)))] else [])
      + (if t.minCitations.Some? then [("minCitations", JNum(t.minCitations.value))] else []))
  }

  /** Strings as JSON strings. */
  function JStrs(ss: seq<string>): (js: seq<Json>)
    ensures |js| == |ss|
  {
    if ss == [] then [] else [JStr(ss[0])] + JStrs(ss[1..])
  }

  lemma {:induction false} StringsOf(ss: seq<string>)
    ensures Strings(JStrs(ss)) == Some(ss)
  {
    if ss != [] {
      StringsOf(ss[1..]);
      assert JStrs(ss)[1..] == JStrs(ss[1..]);
      assert ss == [ss[0]] + ss[1..];
    }
  }

  /** Reading a test written out gives it back. */
  lemma TestRoundTrip(t: TestCase)
    ensures TestOf(TestJson(t)) == Some(t)
  {
    var j := TestJson(t);
    var fields := j.fields;
    LastMemberAt(fields, "q", 0);
    assert Member(j, "q") == Some(JStr(t.q));
    if t.must.Some? {
      var arr := JStrs(t.must.value);
      assert fields[1] == ("must", JArr(arr));
      LastMemberAt(fields, "must", 1);
      StringsOf(t.must.value);
      assert Member(j, "must") == Some(JArr(arr));
      assert MustOf(Member(j, "must")) == Some(t.must);
    } else {
      LastMemberAbsent(fields, "must");
      assert Member(j, "must") == None;
    }
    if t.minCitations.Some? {
      LastMemberAt(fields, "minCitations", |fields| - 1);
      assert Member(j, "minCitations") == Some(JNum(t.minCitations.value));
    } else {
      LastMemberAbsent(fields, "minCitations");
      assert Member(j, "minCitations") == None;
    }
  }
}
