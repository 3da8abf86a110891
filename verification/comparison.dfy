/**
 * The multi-project comparison: each scenario picks one of four cash-flow
 * types, is evaluated to a rate or to nothing, and becomes one row of the
 * summary table, where nothing is shown as a fixed failure marker.
 *
 * The numeric root finder the finite types call is a parameter `irr`: the
 * model fixes which schedule it is applied to, not how it searches.
 */
module Comparison {
  import opened Wrappers
  import opened CashFlow
  import opened Perpetuity

  /** The four choices of the cash-flow-type selector, each with the inputs
      the form asks for under that choice. */
  datatype Scenario =
    | PerpetualConstant(invest: real, cf: real)
    | PerpetualGrowth(invest: real, cf1: real, g: real)
    | FiniteConstant(invest: real, cf: real, n: int)
    | FiniteResidual(invest: real, cf: real, n: int, fv: real)
  {
    /** The selector's label for this cash-flow type. */
    function Label(): string
    {
      match this
      case PerpetualConstant(_, _) => "永续等额"
      case PerpetualGrowth(_, _, _) => "永续增长"
      case FiniteConstant(_, _, _) => "有限等额"
      case FiniteResidual(_, _, _, _) => "有限等额+残值"
    }
  }

  /** Text shown in place of a rate when a scenario yields none. */
  const FailureMarker: string := "计算失败"

  /** What the IRR column shows: a rate (rendered as a percentage) or the
      failure marker. */
  datatype Cell = Percent(rate: real) | Marker(text: string)

  /** A scenario can be evaluated without a division by zero: only the
      constant-perpetuity branch divides without checking its divisor. */
  predicate Evaluable(s: Scenario)
  {
    s.PerpetualConstant? && s.cf != 0.0 ==> s.invest != 0.0
  }

  /**
   * Dispatch on the cash-flow type.  Perpetuities use their closed forms and
   * may yield no rate; finite schedules are built and handed to the root
   * finder, whose answer is passed on as it is.
   */
  function Evaluate(s: Scenario, irr: seq<real> -> real): (r: Option<real>)
    requires Evaluable(s)
    ensures r.None? <==> (s.PerpetualConstant? && s.cf == 0.0) || (s.PerpetualGrowth? && s.invest == 0.0)
    ensures s.PerpetualConstant? && r.Some? ==>
              r.value != 0.0 && PerpetuityValue(s.cf, r.value) + s.invest == 0.0
    ensures s.PerpetualGrowth? && r.Some? && s.cf1 != 0.0 ==>
              r.value != s.g && GrowingPerpetuityValue(s.cf1, r.value, s.g) + s.invest == 0.0
    ensures s.PerpetualGrowth? && r.Some? && s.cf1 == 0.0 ==> r.value == s.g
    ensures s.FiniteConstant? ==> r == Some(irr(ConstantSchedule(s.invest, s.cf, s.n)))
    ensures s.FiniteResidual? ==> r == Some(irr(ResidualSchedule(s.invest, s.cf, s.n, s.fv)))
  {
    match s
    case PerpetualConstant(invest, cf) => ConstantComparison(invest, cf)
    case PerpetualGrowth(invest, cf1, g) => GrowthComparison(invest, cf1, g)
    case FiniteConstant(invest, cf, n) => Some(irr(ConstantSchedule(invest, cf, n)))
    case FiniteResidual(invest, cf, n, fv) => Some(irr(ResidualSchedule(invest, cf, n, fv)))
  }

  /** The IRR column: a rate is shown as itself, no rate as the failure marker. */
  function Display(r: Option<real>): (c: Cell)
    ensures c.Marker? <==> r.None?
    ensures c.Marker? ==> c.text == FailureMarker
    ensures c.Percent? ==> c.rate == r.value
  {
    match r
    case Some(x) => Percent(x)
    case None => Marker(FailureMarker)
  }

  /** The finite cash-flow types never show the failure marker: whatever the
      root finder returns is displayed as a rate. */
  lemma FiniteNeverFails(s: Scenario, irr: seq<real> -> real)
    requires s.FiniteConstant? || s.FiniteResidual?
    ensures Display(Evaluate(s, irr)).Percent?
  {
  }

  /** A scenario with a name, as entered under one project. */
  datatype NamedScenario = NamedScenario(name: string, inputs: Scenario)

  datatype Project = Project(name: string, scenarios: seq<NamedScenario>)

  /** One row of the summary table: project, scenario, cash-flow type, IRR. */
  datatype Row = Row(project: string, scenario: string, kind: string, irr: Cell)

  predicate AllEvaluable(projects: seq<Project>)
  {
    forall i, j :: 0 <= i < |projects| && 0 <= j < |projects[i].scenarios| ==>
      Evaluable(projects[i].scenarios[j].inputs)
  }

  function RowFor(project: string, s: NamedScenario, irr: seq<real> -> real): Row
    requires Evaluable(s.inputs)
  {
    Row(project, s.name, s.inputs.Label(), Display(Evaluate(s.inputs, irr)))
  }

  /** The rows of one project, one per scenario, in entry order. */
  function ScenarioRows(project: string, scenarios: seq<NamedScenario>, irr: seq<real> -> real): (rows: seq<Row>)
    requires forall j :: 0 <= j < |scenarios| ==> Evaluable(scenarios[j].inputs)
    ensures |rows| == |scenarios|
    ensures forall j :: 0 <= j < |rows| ==> rows[j] == RowFor(project, scenarios[j], irr)
  {
    if |scenarios| == 0 then []
    else
      ScenarioRows(project, scenarios[..|scenarios| - 1], irr)
      + [RowFor(project, scenarios[|scenarios| - 1], irr)]
  }

  /** Number of scenarios over all projects: the number of table rows. */
  function ScenarioCount(projects: seq<Project>): nat
  {
    if |projects| == 0 then 0
    else ScenarioCount(projects[..|projects| - 1]) + |projects[|projects| - 1].scenarios|
  }

  /** The summary table: every project's rows, projects in entry order. */
  function TableRows(projects: seq<Project>, irr: seq<real> -> real): (rows: seq<Row>)
    requires AllEvaluable(projects)
    ensures |rows| == ScenarioCount(projects)
  {
    if |projects| == 0 then []
    else
      var last := projects[|projects| - 1];
      TableRows(projects[..|projects| - 1], irr) + ScenarioRows(last.name, last.scenarios, irr)
  }

  /**
   * Each row corresponds to its originating scenario: scenario `j` of project
   * `i` sits after the rows of all earlier projects, and carries that
   * project's name and that scenario's name, type and result.
   */
  lemma {:induction false} RowOrigin(projects: seq<Project>, irr: seq<real> -> real, i: nat, j: nat)
    requires AllEvaluable(projects)
    requires i < |projects| && j < |projects[i].scenarios|
    ensures ScenarioCount(projects[..i]) + j < |TableRows(projects, irr)|
    ensures TableRows(projects, irr)[ScenarioCount(projects[..i]) + j]
            == RowFor(projects[i].name, projects[i].scenarios[j], irr)
    decreases |projects|
  {
    var init := projects[..|projects| - 1];
    var last := projects[|projects| - 1];
    assert AllEvaluable(init);
    if i == |projects| - 1 {
      assert projects[..i] == init;
    } else {
      assert init[..i] == projects[..i];
      assert init[i] == projects[i];
      RowOrigin(init, irr, i, j);
      assert ScenarioCount(projects) == ScenarioCount(init) + |last.scenarios|;
      assert ScenarioCount(init[..i]) + j < ScenarioCount(init);
    }
  }

  /** The table over one more project is the shorter table followed by that
      project's rows. */
  lemma TableRowsStep(projects: seq<Project>, irr: seq<real> -> real, i: nat)
    requires AllEvaluable(projects)
    requires i < |projects|
    ensures AllEvaluable(projects[..i]) && AllEvaluable(projects[..i + 1])
    ensures TableRows(projects[..i + 1], irr)
            == TableRows(projects[..i], irr) + ScenarioRows(projects[i].name, projects[i].scenarios, irr)
  {
    assert projects[..i + 1][..i] == projects[..i];
  }

  /**
   * Appends one project's rows, scenario by scenario, as the inner loop of
   * the form does.
   */
  method AppendProjectRows(rows: seq<Row>, p: Project, irr: seq<real> -> real) returns (rows': seq<Row>)
    requires forall j :: 0 <= j < |p.scenarios| ==> Evaluable(p.scenarios[j].inputs)
    ensures rows' == rows + ScenarioRows(p.name, p.scenarios, irr)
  {
    rows' := rows;
    var j := 0;
    while j < |p.scenarios|
      invariant 0 <= j <= |p.scenarios|
      invariant rows' == rows + ScenarioRows(p.name, p.scenarios[..j], irr)
    {
      assert p.scenarios[..j + 1][..j] == p.scenarios[..j];
      rows' := rows' + [RowFor(p.name, p.scenarios[j], irr)];
      j := j + 1;
    }
    assert p.scenarios[..j] == p.scenarios;
  }

  /**
   * Builds the summary table the way the form does, project by project and
   * scenario by scenario, appending one row per scenario.
   */
  method BuildTable(projects: seq<Project>, irr: seq<real> -> real) returns (rows: seq<Row>)
    requires AllEvaluable(projects)
    ensures |rows| == ScenarioCount(projects)
    ensures rows == TableRows(projects, irr)
  {
    rows := [];
    var i := 0;
    while i < |projects|
      invariant 0 <= i <= |projects|
      invariant AllEvaluable(projects[..i])
      invariant rows == TableRows(projects[..i], irr)
    {
      TableRowsStep(projects, irr, i);
      rows := AppendProjectRows(rows, projects[i], irr);
      i := i + 1;
    }
    assert projects[..i] == projects;
  }
}
