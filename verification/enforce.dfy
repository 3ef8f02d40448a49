/** The body of the generated `CheckProtocol::enforce_law`: one
    `if !(condition) { return Err(InvariantViolation { .. }) }` per collected
    invariant, in order, then `Ok(())`. */
module Enforce {
  import opened Wrappers

  /** One generated runtime check, identified by the condition text it
      reports. */
  datatype RuntimeCheck = RuntimeCheck(expression: string)

  /** `ConstitutionError::InvariantViolation { expression, values }`. */
  datatype ConstitutionError = InvariantViolation(expression: string, values: map<string, string>)

  /** `holds(e)` is the value of condition `e` evaluated on `self`. */
  type Instance = string -> bool

  /** Check `k` is the first failing one: it fails and every earlier check
      holds. */
  predicate FirstFailureAt(checks: seq<RuntimeCheck>, holds: Instance, k: int)
  {
    && 0 <= k < |checks|
    && !holds(checks[k].expression)
    && forall j :: 0 <= j < k ==> holds(checks[j].expression)
  }

  /** `enforce_law(&self)`: `Ok(())` exactly when every condition holds;
      otherwise the violation of the first failing condition, with an empty
      `values` map. */
  function EnforceLaw(checks: seq<RuntimeCheck>, holds: Instance): (r: Result<(), ConstitutionError>)
    ensures r.Ok? <==> forall i :: 0 <= i < |checks| ==> holds(checks[i].expression)
    ensures r.Err? ==>
      exists k :: FirstFailureAt(checks, holds, k)
        && r.error == InvariantViolation(checks[k].expression, map[])
  {
    if checks == [] then Ok(())
    else if !holds(checks[0].expression) then
      assert FirstFailureAt(checks, holds, 0);
      Err(InvariantViolation(checks[0].expression, map[]))
    else
      var r := EnforceLaw(checks[1..], holds);
      assert r.Err? ==>
          exists k :: FirstFailureAt(checks, holds, k)
            && r.error == InvariantViolation(checks[k].expression, map[]) by {
        if r.Err? {
          var k :| FirstFailureAt(checks[1..], holds, k)
            && r.error == InvariantViolation(checks[1..][k].expression, map[]);
          assert FirstFailureAt(checks, holds, k + 1);
        }
      }
      r
  }

  /** How many conditions one call evaluates: up to and including the first
      failing one, or all of them. */
  function Evaluated(checks: seq<RuntimeCheck>, holds: Instance): (n: nat)
    ensures n <= |checks|
    ensures forall j :: 0 <= j < n - 1 ==> holds(checks[j].expression)
    ensures n < |checks| ==> n > 0 && !holds(checks[n - 1].expression)
  {
    if checks == [] then 0
    else if !holds(checks[0].expression) then 1
    else 1 + Evaluated(checks[1..], holds)
  }

  /** The imperative reading of the generated body: a sequence of guarded
      early returns. Returns the result and the number of conditions it
      evaluated. */
  method EnforceLawSequentially(checks: seq<RuntimeCheck>, holds: Instance)
    returns (r: Result<(), ConstitutionError>, evaluated: nat)
    ensures r == EnforceLaw(checks, holds)
    ensures evaluated == Evaluated(checks, holds)
  {
    var i := 0;
    while i < |checks|
      invariant 0 <= i <= |checks|
      invariant EnforceLaw(checks, holds) == EnforceLaw(checks[i..], holds)
      invariant Evaluated(checks, holds) == i + Evaluated(checks[i..], holds)
    {
      if !holds(checks[i].expression) {
        return Err(InvariantViolation(checks[i].expression, map[])), i + 1;
      }
      assert checks[i..][1..] == checks[i + 1..];
      i := i + 1;
    }
    return Ok(()), i;
  }

  /** Conditions after the first failing one are never evaluated: two
      instances that agree on the evaluated conditions get the same result. */
  lemma {:induction false} LaterConditionsNotEvaluated(checks: seq<RuntimeCheck>, holds: Instance, other: Instance)
    requires forall j :: 0 <= j < Evaluated(checks, holds) ==>
      holds(checks[j].expression) == other(checks[j].expression)
    ensures EnforceLaw(checks, other) == EnforceLaw(checks, holds)
    ensures Evaluated(checks, other) == Evaluated(checks, holds)
    decreases |checks|
  {
    if checks != [] && holds(checks[0].expression) {
      forall j | 0 <= j < Evaluated(checks[1..], holds)
        ensures holds(checks[1..][j].expression) == other(checks[1..][j].expression)
      {
        assert checks[1..][j] == checks[j + 1];
      }
      LaterConditionsNotEvaluated(checks[1..], holds, other);
    }
  }

  /** The collect-all alternative: the expression of every failing check, in
      order. */
  function Violations(checks: seq<RuntimeCheck>, holds: Instance): (vs: seq<string>)
    ensures |vs| <= |checks|
    ensures forall v :: v in vs ==> !holds(v)
  {
    if checks == [] then []
    else
      var rest := Violations(checks[1..], holds);
      if holds(checks[0].expression) then rest else [checks[0].expression] + rest
  }

  /** The generated check reports exactly the first entry of the collect-all
      violation list, and succeeds exactly when that list is empty. */
  lemma {:induction false} ReportsFirstViolation(checks: seq<RuntimeCheck>, holds: Instance)
    ensures EnforceLaw(checks, holds).Ok? <==> Violations(checks, holds) == []
    ensures EnforceLaw(checks, holds).Err? ==>
      EnforceLaw(checks, holds).error.expression == Violations(checks, holds)[0]
    decreases |checks|
  {
    if checks != [] {
      ReportsFirstViolation(checks[1..], holds);
    }
  }
}
