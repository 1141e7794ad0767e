/** Admission policies: the operator-supplied limits and their validation. */
module WorkloadPolicies {
  import opened Common

  type PrincipalKey = nat

  datatype ClassLimits = ClassLimits(maxActive: nat, maxQueued: nat)

  datatype PrincipalLimits = PrincipalLimits(maxActive: nat, maxQueued: nat)

  datatype PriorityScheduling = PriorityScheduling(maxBypass: nat, classPriorities: map<string, nat>)

  datatype Policy = Policy(
    format: string,
    policyId: string,
    version: nat,
    maxActive: nat,
    maxQueued: nat,
    operatorMaxActive: nat,
    operatorMaxQueued: nat,
    queueTimeout: nat,
    requestTimeout: Option<nat>,
    retryAfterSeconds: nat,
    principal: Option<PrincipalLimits>,
    priorityScheduling: Option<PriorityScheduling>,
    classes: map<string, ClassLimits>)

  datatype AdmissionScope = Global | Class | Principal | Operator

  datatype WorkloadError =
    | InvalidPolicy
    | UnknownClass
    | Unavailable
    | Overloaded(scope: AdmissionScope)
    | AdmissionTimedOut
    | RequestTimedOut
    | Cancelled

  predicate NameChar(c: char) {
    'a' <= c <= 'z' || 'A' <= c <= 'Z' || '0' <= c <= '9' || c == '_' || c == '-'
  }

  predicate ValidName(value: string) {
    0 < |value| <= 32 && forall i :: 0 <= i < |value| ==> NameChar(value[i])
  }

  /** The instant `span` after `now`, if the platform clock can represent it. */
  function CheckedInstant(now: nat, span: nat, horizon: nat): Option<nat> {
    if now + span <= horizon then Some(now + span) else None
  }

  /** `WorkloadPolicy::validate`, at clock reading `now` on a clock that ends at `horizon`. */
  function Validate(p: Policy, now: nat, horizon: nat): Result<(), WorkloadError> {
    if || p.format != "oxigraph-admission-v1"
       || !ValidName(p.policyId)
       || p.version == 0
       || p.maxActive == 0
       || p.operatorMaxActive == 0
       || CheckedAdd(p.maxActive, p.operatorMaxActive).None?
       || CheckedAdd(p.maxQueued, p.operatorMaxQueued).None?
       || CheckedAdd(p.maxActive, p.maxQueued).None?
       || CheckedAdd(p.maxActive + p.maxQueued, 1).None?
       || CheckedAdd(p.operatorMaxActive, p.operatorMaxQueued).None?
       || CheckedAdd(p.operatorMaxActive + p.operatorMaxQueued, 1).None?
       || p.queueTimeout == 0
       || (p.requestTimeout.Some?
           && (p.requestTimeout.value == 0 || CheckedInstant(now, p.requestTimeout.value, horizon).None?))
       || CheckedInstant(now, p.queueTimeout, horizon).None?
       || !(1 <= p.retryAfterSeconds <= 300)
       || (p.principal.Some?
           && (|| p.principal.value.maxActive == 0
               || p.principal.value.maxActive > p.maxActive
               || p.principal.value.maxQueued > p.maxQueued))
       || p.classes == map[]
       || |p.classes| > 16
       || "default" !in p.classes
       || (exists c :: c in p.classes && (|| !ValidName(c)
                                         || p.classes[c].maxActive == 0
                                         || p.classes[c].maxActive > p.maxActive
                                         || p.classes[c].maxQueued > p.maxQueued))
       || (p.priorityScheduling.Some?
           && var pr := p.priorityScheduling.value.classPriorities;
              (|| |pr| != |p.classes|
               || exists c :: c in pr && (pr[c] > 3 || c !in p.classes)))
    then Err(InvalidPolicy) else Ok(())
  }

  /** What the scheduler relies on, independently of the clock reading at validation. */
  predicate Admissible(p: Policy) {
    && 0 < p.maxActive && 0 < p.operatorMaxActive
    && p.maxActive + p.maxQueued < USIZE_MAX
    && p.operatorMaxActive + p.operatorMaxQueued < USIZE_MAX
    && 0 < p.version
    && (forall c :: c in p.classes ==>
        0 < p.classes[c].maxActive <= p.maxActive && p.classes[c].maxQueued <= p.maxQueued)
    && (p.principal.Some? ==>
        0 < p.principal.value.maxActive <= p.maxActive && p.principal.value.maxQueued <= p.maxQueued)
    && (p.priorityScheduling.Some? ==>
          && p.priorityScheduling.value.classPriorities.Keys == p.classes.Keys
          && forall c :: c in p.classes ==> p.priorityScheduling.value.classPriorities[c] <= 3)
  }

  /** Equal sizes and one inclusion leave no class without a priority, so the scheduler's indexed
      priority lookup cannot fail for a configured class. */
  lemma ValidatedIsAdmissible(p: Policy, now: nat, horizon: nat)
    requires Validate(p, now, horizon).Ok?
    ensures Admissible(p)
  {
    if p.priorityScheduling.Some? {
      var pr := p.priorityScheduling.value.classPriorities;
      assert pr.Keys <= p.classes.Keys;
      SubsetOfEqualSize(pr.Keys, p.classes.Keys);
    }
  }

  predicate ClassRules(p: Policy) {
    && |p.classes| <= 16 && "default" in p.classes
    && forall c :: c in p.classes ==>
        ValidName(c) && 1 <= p.classes[c].maxActive <= p.maxActive && p.classes[c].maxQueued <= p.maxQueued
  }

  /** A policy as it is documented: every number in its range, every sum representable, every instant within
      the clock, and exactly one priority for each class. */
  predicate Documented(p: Policy, now: nat, horizon: nat) {
    && p.format == "oxigraph-admission-v1" && ValidName(p.policyId) && 1 <= p.version
    && 1 <= p.maxActive && 1 <= p.operatorMaxActive
    && p.maxActive + p.operatorMaxActive <= USIZE_MAX && p.maxQueued + p.operatorMaxQueued <= USIZE_MAX
    && p.maxActive + p.maxQueued < USIZE_MAX && p.operatorMaxActive + p.operatorMaxQueued < USIZE_MAX
    && 1 <= p.queueTimeout <= horizon - now && 1 <= p.retryAfterSeconds <= 300
    && (p.requestTimeout.Some? ==> 1 <= p.requestTimeout.value <= horizon - now)
    && (p.principal.Some? ==>
          1 <= p.principal.value.maxActive <= p.maxActive && p.principal.value.maxQueued <= p.maxQueued)
    && ClassRules(p)
    && (p.priorityScheduling.Some? ==>
          && p.priorityScheduling.value.classPriorities.Keys == p.classes.Keys
          && forall c :: c in p.classes ==> p.priorityScheduling.value.classPriorities[c] <= 3)
  }

  /** Validation accepts exactly the documented policies; comparing the sizes of the two class tables
      decides whether they cover the same classes. */
  lemma ValidationIsExact(p: Policy, now: nat, horizon: nat)
    ensures Validate(p, now, horizon).Ok? <==> Documented(p, now, horizon)
  {
    if p.priorityScheduling.Some? {
      var pr := p.priorityScheduling.value.classPriorities;
      assert |pr.Keys| == |pr| && |p.classes.Keys| == |p.classes|;
      if pr.Keys <= p.classes.Keys && |pr| == |p.classes| {
        SubsetOfEqualSize(pr.Keys, p.classes.Keys);
      }
    }
  }

  lemma SubsetOfEqualSize<T>(a: set<T>, b: set<T>)
    requires a <= b && |a| == |b|
    ensures a == b
  {
    assert |b - a| == |b| - |a|;
  }
}
