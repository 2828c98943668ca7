/** The sequential, fail-fast dispatch loop of index.js (lines 22 to 38). */
module Runner {
  import opened Common
  import opened Selection
  import JsStrings

  /** How the run ends: the success report (exit status 0), or exit status 1
      after reporting an unknown name or a failing scraper with its message. */
  datatype Exit = Completed | NotFound(name: string) | Failed(name: string, message: string)

  /** Process exit status for each way the run can end. */
  function ExitCode(e: Exit): (code: nat)
    ensures code == 0 <==> e == Completed
    ensures code <= 1
  {
    if e.Completed? then 0 else 1
  }

  /** The registry module: its keys in insertion order (what `Object.keys`
      enumerates) and, for each name, what awaiting that scraper yields. */
  datatype Registry = Registry(names: seq<string>, ops: map<string, Outcome>)
  {
    /** Names are unique and are exactly the keys that lookups can find. */
    ghost predicate Valid()
    {
      && (forall i, j :: 0 <= i < j < |names| ==> names[i] != names[j])
      && (forall n :: n in ops <==> n in names)
    }
  }

  /** The names invoked, in order, and how the run ended. */
  datatype Run = Run(invoked: seq<string>, exit: Exit)

  /** `name` is registered and its operation resolves. */
  predicate Succeeds(ops: map<string, Outcome>, name: string)
  {
    name in ops && ops[name] == Ok
  }

  /** The run of a plan, one name at a time: an unknown name stops the run
      before anything is invoked for it, a failing operation stops it just
      after it was invoked. */
  function RunSpec(plan: seq<string>, ops: map<string, Outcome>): (r: Run)
    ensures |r.invoked| <= |plan| && r.invoked == plan[..|r.invoked|]
    decreases |plan|
  {
    if plan == [] then Run([], Completed)
    else if plan[0] !in ops then Run([], NotFound(plan[0]))
    else match ops[plan[0]]
      case Fail(m) => Run([plan[0]], Failed(plan[0], m))
      case Ok =>
        var rest := RunSpec(plan[1..], ops);
        Run([plan[0]] + rest.invoked, rest.exit)
  }

  /** If the first problem in the plan is the unknown name at index `i`, exactly
      the names before `i` are invoked and the run reports that name. */
  lemma {:induction false} FirstProblemNotFound(plan: seq<string>, ops: map<string, Outcome>, i: nat)
    requires i < |plan|
    requires forall j :: 0 <= j < i ==> Succeeds(ops, plan[j])
    requires plan[i] !in ops
    ensures RunSpec(plan, ops) == Run(plan[..i], NotFound(plan[i]))
    decreases i
  {
    if i > 0 {
      assert Succeeds(ops, plan[0]);
      FirstProblemNotFound(plan[1..], ops, i - 1);
      assert [plan[0]] + plan[1..][..i - 1] == plan[..i];
    }
  }

  /** If the operation at index `i` is the first to fail, names `0..i` are
      invoked and the run reports that name with the operation's message. */
  lemma {:induction false} FirstProblemFailed(plan: seq<string>, ops: map<string, Outcome>, i: nat, message: string)
    requires i < |plan|
    requires forall j :: 0 <= j < i ==> Succeeds(ops, plan[j])
    requires plan[i] in ops && ops[plan[i]] == Fail(message)
    ensures RunSpec(plan, ops) == Run(plan[..i + 1], Failed(plan[i], message))
    decreases i
  {
    if i > 0 {
      assert Succeeds(ops, plan[0]);
      FirstProblemFailed(plan[1..], ops, i - 1, message);
      assert [plan[0]] + plan[1..][..i] == plan[..i + 1];
    }
  }

  /** The success report is reached exactly when every plan entry is found and
      succeeds, and then every entry has been invoked. */
  lemma {:induction false} CompletedIffAllSucceed(plan: seq<string>, ops: map<string, Outcome>)
    ensures RunSpec(plan, ops).exit == Completed <==> forall j :: 0 <= j < |plan| ==> Succeeds(ops, plan[j])
    ensures RunSpec(plan, ops).exit == Completed ==> RunSpec(plan, ops).invoked == plan
    decreases |plan|
  {
    if plan != [] {
      CompletedIffAllSucceed(plan[1..], ops);
      if Succeeds(ops, plan[0]) {
        assert forall j :: 1 <= j < |plan| ==> plan[j] == plan[1..][j - 1];
        assert [plan[0]] + plan[1..] == plan;
      }
    }
  }

  /** A failed run always ends at a problem: the last name invoked failed, or
      the next one was not found; everything invoked before it succeeded. */
  lemma {:induction false} FailureIsFirstProblem(plan: seq<string>, ops: map<string, Outcome>)
    ensures var r := RunSpec(plan, ops);
      && (r.exit.NotFound? ==> |r.invoked| < |plan| && plan[|r.invoked|] == r.exit.name && r.exit.name !in ops)
      && (r.exit.Failed? ==> r.invoked != [] && r.invoked[|r.invoked| - 1] == r.exit.name
                             && r.exit.name in ops && ops[r.exit.name] == Fail(r.exit.message))
      && (r.exit.Failed? ==> forall j :: 0 <= j < |r.invoked| - 1 ==> Succeeds(ops, plan[j]))
      && (r.exit.NotFound? ==> forall j :: 0 <= j < |r.invoked| ==> Succeeds(ops, plan[j]))
    decreases |plan|
  {
    if plan != [] && Succeeds(ops, plan[0]) {
      FailureIsFirstProblem(plan[1..], ops);
      var rest := RunSpec(plan[1..], ops);
      assert forall j :: 1 <= j < |plan| ==> plan[j] == plan[1..][j - 1];
      assert rest.exit.Failed? ==> ([plan[0]] + rest.invoked)[|rest.invoked|] == rest.invoked[|rest.invoked| - 1];
    }
  }

  /** With a well-formed registry and the `'*'` plan, no name is ever missing. */
  lemma {:induction false} AllPlanFindsEveryName(reg: Registry)
    requires reg.Valid()
    ensures !RunSpec(ParsePlan(All, reg.names), reg.ops).exit.NotFound?
  {
    FailureIsFirstProblem(reg.names, reg.ops);
  }

  /** Registry keys are unique, so the `'*'` plan invokes no scraper twice. */
  lemma AllPlanInvokesEachOnce(reg: Registry)
    requires reg.Valid()
    ensures var r := RunSpec(ParsePlan(All, reg.names), reg.ops);
      forall i, j :: 0 <= i < j < |r.invoked| ==> r.invoked[i] != r.invoked[j]
  {
    var r := RunSpec(reg.names, reg.ops);
    assert forall k :: 0 <= k < |r.invoked| ==> r.invoked[k] == reg.names[k];
  }

  /** The `for...of` loop: invoke each plan entry in turn and stop at the first
      unknown name or the first failing operation. One operation is invoked
      only after the previous one has resolved. */
  method RunPlan(plan: seq<string>, ops: map<string, Outcome>) returns (invoked: seq<string>, exit: Exit)
    ensures Run(invoked, exit) == RunSpec(plan, ops)
    ensures invoked == plan[..|invoked|]
    ensures exit == Completed <==> invoked == plan && forall j :: 0 <= j < |plan| ==> Succeeds(ops, plan[j])
  {
    invoked, exit := [], Completed;
    var i := 0;
    while i < |plan|
      invariant 0 <= i <= |plan|
      invariant invoked == plan[..i]
      invariant forall j :: 0 <= j < i ==> Succeeds(ops, plan[j])
    {
      var name := plan[i];
      if name !in ops {
        exit := NotFound(name);
        FirstProblemNotFound(plan, ops, i);
        CompletedIffAllSucceed(plan, ops);
        return;
      }
      invoked := invoked + [name];
      match ops[name] {
        case Fail(m) =>
          exit := Failed(name, m);
          FirstProblemFailed(plan, ops, i, m);
          CompletedIffAllSucceed(plan, ops);
          return;
        case Ok =>
      }
      i := i + 1;
    }
    CompletedIffAllSucceed(plan, ops);
    assert plan[..|plan|] == plan;
  }

  /** The whole entry point: read the directive, build the plan, run it and
      return the exit status in place of calling `process.exit`. */
  method Execute(env: Option<string>, reg: Registry) returns (plan: seq<string>, invoked: seq<string>, exit: Exit, code: nat)
    ensures plan == SelectPlan(env, reg.names)
    ensures Run(invoked, exit) == RunSpec(plan, reg.ops)
    ensures code == ExitCode(exit)
    ensures code == 0 <==> invoked == plan && forall j :: 0 <= j < |plan| ==> Succeeds(reg.ops, plan[j])
  {
    plan := SelectPlan(env, reg.names);
    invoked, exit := RunPlan(plan, reg.ops);
    code := ExitCode(exit);
  }

  /** Scenario: `x` succeeds and `y` fails; `"x,y"` runs `x`, then `y`, and
      exits 1 naming `y`. */
  lemma SecondFailsScenario(m: string)
    ensures RunSpec(SelectPlan(Some("x,y"), ["x", "y"]), map["x" := Ok, "y" := Fail(m)])
         == Run(["x", "y"], Failed("y", m))
  {
    var pieces := ["x", "y"];
    assert SelectPlan(Some("x,y"), ["x", "y"]) == TrimAll(pieces) by {
      assert JsStrings.Join(pieces, ',') == "x,y";
      PlanIsTrimmedPieces("x,y", ["x", "y"], pieces);
    }
    assert TrimAll(pieces) == pieces by {
      TrimOfBare("x");
      TrimOfBare("y");
    }
  }

  /** Scenario: only `x` is registered; `"z"` invokes nothing and exits 1
      reporting `z` as not found. */
  lemma UnknownNameScenario()
    ensures RunSpec(SelectPlan(Some("z"), ["x"]), map["x" := Ok]) == Run([], NotFound("z"))
  {
    JsStrings.SplitNoSeparator("z", ',');
    TrimOfBare("z");
    assert SelectPlan(Some("z"), ["x"]) == ["z"];
  }

  /** Scenario: `SCRAPERS` unset and registry `a`, `b`: both run, `a` first. */
  lemma UnsetRunsAllInOrder()
    ensures RunSpec(SelectPlan(None, ["a", "b"]), map["a" := Ok, "b" := Ok]) == Run(["a", "b"], Completed)
  {
    UnsetOrEmptyMeansAll(["a", "b"]);
  }
}
