/** The scheduler and the queue together: the plans of the scheduler drain, with one exception. */
module PlanDraining {
  import opened Types
  import opened Duties
  import opened Schedulers
  import opened Plans
  import opened QueueSpec
  import opened QueueRuns
  import opened QueueDrain
  import opened QueueProgress
  import opened QueueExact
  import opened Protocol

  // Positions in ds, in increasing order: those of the duties that are still to come.
  ghost predicate Keeps(ds: seq<DutySpec>, now: Time, clean: seq<DutySpec>, at: seq<nat>) {
    && |at| == |clean|
    && (forall i | 0 <= i < |at| :: at[i] < |ds| && clean[i] == ds[at[i]] && ds[at[i]].activeTime > now)
    && (forall i, j | 0 <= i < j < |at| :: at[i] < at[j])
    && (forall k: nat | k < |ds| && ds[k].activeTime > now :: k in at)
  }

  lemma KeepsOneMore(ds: seq<DutySpec>, d: DutySpec, now: Time, clean: seq<DutySpec>, at: seq<nat>)
    requires Keeps(ds, now, clean, at)
    ensures d.activeTime > now ==> Keeps(ds + [d], now, clean + [d], at + [|ds|])
    ensures d.activeTime <= now ==> Keeps(ds + [d], now, clean, at)
  {
    if d.activeTime > now {
      var more := at + [|ds|];
      assert more[|at|] == |ds|;
      forall k: nat | k < |ds + [d]| && (ds + [d])[k].activeTime > now ensures k in more {
        if k < |ds| {
          assert k in at;
        }
      }
    }
  }

  // Cleaning keeps exactly the duties with a later active time, in order.
  lemma {:induction false} CleanKeeps(ds: seq<DutySpec>, now: Time) returns (at: seq<nat>)
    ensures Keeps(ds, now, Clean(ds, now), at)
  {
    if ds == [] {
      at := [];
    } else {
      var n := |ds| - 1;
      at := CleanKeeps(ds[..n], now);
      KeepsOneMore(ds[..n], ds[n], now, Clean(ds[..n], now), at);
      hide Keeps;
      assert ds[..n] + [ds[n]] == ds;
      if ds[n].activeTime > now {
        at := at + [n];
      } else {
        assert Clean(ds, now) == Clean(ds[..n], now);
      }
    }
  }

  ghost predicate UniqueIds(env: Env) {
    forall i, j :: env.newId(i) == env.newId(j) ==> i == j
  }

  // The plan for an epoch, made at time now.
  ghost predicate IsPlan(env: Env, spec: Spec, eval: Evaluation, now: Time, plan: seq<Duty>) {
    Expand(env, spec, eval).Ok? && Specs(plan) == Clean(Expand(env, spec, eval).value, now)
  }

  // After the attestations of a slot are due, and before its aggregates are.
  ghost predicate Between(spec: Spec, eval: Evaluation, slot: uint64, now: Time) {
    var start := AtSlot(spec, eval.genesisTime, slot);
    start + FirstDelay(spec) <= now < start + AggregationDelay(spec)
  }

  // Position k of an expansion is an aggregate, and its attestation is due already while it is not.
  ghost predicate CaughtAt(spec: Spec, eval: Evaluation, now: Time, ds: seq<DutySpec>, k: nat) {
    k < |ds| && ds[k].job.AttestationAggregate? && Between(spec, eval, ds[k].slot, now)
  }

  // An aggregate stays in the plan without its attestation exactly between the two times.
  lemma DanglesExactlyBetween(env: Env, spec: Spec, eval: Evaluation, now: Time, k: nat)
    requires Expand(env, spec, eval).Ok? && UniqueIds(env)
    requires k < |Expand(env, spec, eval).value| && Expand(env, spec, eval).value[k].job.AttestationAggregate?
    ensures var ds := Expand(env, spec, eval).value;
      var clean := Clean(ds, now);
      (ds[k] in clean && forall d | d in clean :: d.id !in ds[k].blockedBy) <==> Between(spec, eval, ds[k].slot, now)
  {
    var ds := Expand(env, spec, eval).value;
    ExpansionFits(env, spec, eval);
    assert DutyFits(env, spec, eval, ds, k) && DutyFits(env, spec, eval, ds, k - 1);
    KeptExactlyWhenLater(env, spec, eval, ds, now, k);
    KeptExactlyWhenLater(env, spec, eval, ds, now, k - 1);
  }

  lemma KeptExactlyWhenLater(env: Env, spec: Spec, eval: Evaluation, ds: seq<DutySpec>, now: Time, k: nat)
    requires Fits(env, spec, eval, ds) && UniqueIds(env) && k < |ds|
    ensures ds[k] in Clean(ds, now) <==> ds[k].activeTime > now
    ensures (exists d :: d in Clean(ds, now) && d.id == ds[k].id) <==> ds[k].activeTime > now
  {
    var clean := Clean(ds, now);
    var at := CleanKeeps(ds, now);
    if ds[k].activeTime > now {
      var i :| 0 <= i < |at| && at[i] == k;
      assert clean[i] == ds[k];
    }
    forall d | d in clean && d.id == ds[k].id ensures ds[k].activeTime > now {
      var i :| 0 <= i < |clean| && clean[i] == d;
      assert DutyFits(env, spec, eval, ds, at[i]) && DutyFits(env, spec, eval, ds, k);
    }
  }

  // Only an aggregate has a dependency: the duty right before it.
  lemma DependencyIsBefore(env: Env, spec: Spec, eval: Evaluation, ds: seq<DutySpec>, k: nat, dep: Id)
    requires Fits(env, spec, eval, ds) && k < |ds| && dep in ds[k].blockedBy
    ensures 0 < k && ds[k].job.AttestationAggregate? && ds[k - 1].id == dep == env.newId(k - 1)
    ensures ds[k].id == env.newId(k)
  {
    assert DutyFits(env, spec, eval, ds, k) && DutyFits(env, spec, eval, ds, k - 1);
  }

  // The positions of a plan's duties in the expansion, and what that says about each.
  lemma PlanPositions(env: Env, spec: Spec, eval: Evaluation, now: Time, plan: seq<Duty>) returns (at: seq<nat>)
    requires IsPlan(env, spec, eval, now, plan)
    ensures Keeps(Expand(env, spec, eval).value, now, Specs(plan), at)
    ensures forall i | 0 <= i < |plan| :: plan[i].spec == Expand(env, spec, eval).value[at[i]]
    ensures Fits(env, spec, eval, Expand(env, spec, eval).value)
  {
    at := CleanKeeps(Expand(env, spec, eval).value, now);
    ExpansionFits(env, spec, eval);
    assert forall i | 0 <= i < |plan| :: Specs(plan)[i] == plan[i].spec;
  }

  lemma PlanHasDistinctIds(env: Env, spec: Spec, eval: Evaluation, now: Time, plan: seq<Duty>)
    requires IsPlan(env, spec, eval, now, plan) && UniqueIds(env)
    ensures DistinctIds(plan)
  {
    var at := PlanPositions(env, spec, eval, now, plan);
    var ds := Expand(env, spec, eval).value;
    forall i, j | 0 <= i < j < |plan| ensures plan[i].spec.id != plan[j].spec.id {
      assert DutyFits(env, spec, eval, ds, at[i]) && DutyFits(env, spec, eval, ds, at[j]);
    }
  }

  lemma PlanIsUnshared(env: Env, spec: Spec, eval: Evaluation, now: Time, plan: seq<Duty>)
    requires IsPlan(env, spec, eval, now, plan) && UniqueIds(env)
    ensures Unshared(plan)
  {
    var at := PlanPositions(env, spec, eval, now, plan);
    var ds := Expand(env, spec, eval).value;
    forall i: nat, j: nat, dep ensures !Share(plan, i, j, dep) {
      if Share(plan, i, j, dep) {
        DependencyIsBefore(env, spec, eval, ds, at[i], dep);
        DependencyIsBefore(env, spec, eval, ds, at[j], dep);
      }
    }
  }

  // The first n ids, by the order in which they are generated.
  ghost function GenerationOrder(env: Env, n: nat): (rank: map<Id, nat>)
    requires UniqueIds(env)
    ensures forall k: nat | k < n :: env.newId(k) in rank && rank[env.newId(k)] == k
  {
    if n == 0 then map[] else GenerationOrder(env, n - 1)[env.newId(n - 1) := n - 1]
  }

  lemma PlanIsAcyclic(env: Env, spec: Spec, eval: Evaluation, now: Time, plan: seq<Duty>)
    requires IsPlan(env, spec, eval, now, plan) && UniqueIds(env)
    ensures Acyclic(plan)
  {
    var at := PlanPositions(env, spec, eval, now, plan);
    var ds := Expand(env, spec, eval).value;
    var rank := GenerationOrder(env, |ds|);
    forall duty, dep | duty in plan && dep in duty.spec.blockedBy
      ensures duty.spec.id in rank && dep in rank && rank[dep] < rank[duty.spec.id]
    {
      var i :| 0 <= i < |plan| && plan[i] == duty;
      DependencyIsBefore(env, spec, eval, ds, at[i], dep);
    }
    assert RankedBy(plan, rank);
  }

  lemma PlanIsTimed(env: Env, spec: Spec, eval: Evaluation, now: Time, plan: seq<Duty>)
    requires IsPlan(env, spec, eval, now, plan) && now >= ZERO_TIME
    ensures Timed(plan)
  {
    var at := PlanPositions(env, spec, eval, now, plan);
    forall duty | duty in plan ensures duty.spec.activeTime != ZERO_TIME {
      var i :| 0 <= i < |plan| && plan[i] == duty;
    }
  }

  // When the aggregate at a position is kept and not caught, its attestation is kept too.
  lemma AttestationIsKept(env: Env, spec: Spec, eval: Evaluation, ds: seq<DutySpec>, now: Time, k: nat)
    requires Fits(env, spec, eval, ds) && 0 < k < |ds| && ds[k].job.AttestationAggregate?
    requires ds[k].activeTime > now && !CaughtAt(spec, eval, now, ds, k)
    ensures ds[k - 1].activeTime > now
  {
    assert DutyFits(env, spec, eval, ds, k) && DutyFits(env, spec, eval, ds, k - 1);
    hide AtSlot, FirstDelay, AggregationDelay, Fits;
  }

  lemma ClosedWhenNotCaught(env: Env, spec: Spec, eval: Evaluation, now: Time, plan: seq<Duty>, duty: Duty, dep: Id)
    requires IsPlan(env, spec, eval, now, plan) && UniqueIds(env)
    requires forall k: nat :: !CaughtAt(spec, eval, now, Expand(env, spec, eval).value, k)
    requires duty in plan && dep in duty.spec.blockedBy
    ensures InBatch(plan, dep)
  {
    hide Fits, CaughtAt, Expand, UniqueIds;
    var at := PlanPositions(env, spec, eval, now, plan);
    var ds := Expand(env, spec, eval).value;
    var i :| 0 <= i < |plan| && plan[i] == duty;
    DependencyIsBefore(env, spec, eval, ds, at[i], dep);
    AttestationIsKept(env, spec, eval, ds, now, at[i]);
    var k: nat := at[i] - 1;
    assert k in at;
    var j :| 0 <= j < |at| && at[j] == k;
    assert plan[j] in plan && plan[j].spec.id == dep;
  }

  lemma PlanIsClosed(env: Env, spec: Spec, eval: Evaluation, now: Time, plan: seq<Duty>)
    requires IsPlan(env, spec, eval, now, plan) && UniqueIds(env)
    ensures Closed(plan) <==> forall k: nat :: !CaughtAt(spec, eval, now, Expand(env, spec, eval).value, k)
  {
    if k: nat :| CaughtAt(spec, eval, now, Expand(env, spec, eval).value, k) {
      NotClosedWhenCaught(env, spec, eval, now, plan, k);
    } else {
      forall duty, dep | duty in plan && dep in duty.spec.blockedBy ensures InBatch(plan, dep) {
        ClosedWhenNotCaught(env, spec, eval, now, plan, duty, dep);
      }
    }
  }

  lemma NotClosedWhenDangling(plan: seq<Duty>, d: DutySpec)
    requires d in Specs(plan) && d.blockedBy != [] && forall e | e in Specs(plan) :: e.id !in d.blockedBy
    ensures !Closed(plan)
  {
    var i :| 0 <= i < |plan| && Specs(plan)[i] == d;
    assert plan[i] in plan && d.blockedBy[0] in plan[i].spec.blockedBy;
    forall other | other in plan ensures other.spec.id != d.blockedBy[0] {
      var j :| 0 <= j < |plan| && plan[j] == other;
      assert Specs(plan)[j] in Specs(plan);
    }
    assert !InBatch(plan, d.blockedBy[0]);
  }

  lemma NotClosedWhenCaught(env: Env, spec: Spec, eval: Evaluation, now: Time, plan: seq<Duty>, k: nat)
    requires IsPlan(env, spec, eval, now, plan) && UniqueIds(env)
    requires CaughtAt(spec, eval, now, Expand(env, spec, eval).value, k)
    ensures !Closed(plan)
  {
    var ds := Expand(env, spec, eval).value;
    ExpansionFits(env, spec, eval);
    assert DutyFits(env, spec, eval, ds, k);
    DanglesExactlyBetween(env, spec, eval, now, k);
    NotClosedWhenDangling(plan, ds[k]);
  }

  // A plan meets what the queue needs to drain it, unless it was made between the time an attestation was
  // due and the time its aggregate is.
  lemma PlanIsDrainable(env: Env, spec: Spec, eval: Evaluation, now: Time, plan: seq<Duty>)
    requires IsPlan(env, spec, eval, now, plan) && UniqueIds(env) && now >= ZERO_TIME
    ensures DistinctIds(plan)
    ensures Drainable(plan) <==> forall k: nat :: !CaughtAt(spec, eval, now, Expand(env, spec, eval).value, k)
  {
    PlanHasDistinctIds(env, spec, eval, now, plan);
    PlanIsUnshared(env, spec, eval, now, plan);
    PlanIsAcyclic(env, spec, eval, now, plan);
    PlanIsTimed(env, spec, eval, now, plan);
    PlanIsClosed(env, spec, eval, now, plan);
  }

  // The queue can finish the plan of an epoch exactly when no aggregate is caught between the two times.
  lemma EpochDrainsExactlyWhenNotCaught(env: Env, spec: Spec, eval: Evaluation, now: Time, plan: seq<Duty>,
      run: seq<Action>, ctx: Context)
    requires IsPlan(env, spec, eval, now, plan) && UniqueIds(env) && now >= ZERO_TIME
    requires run == [EnqueueAction(ctx, plan)]
    ensures (forall k: nat :: !CaughtAt(spec, eval, now, Expand(env, spec, eval).value, k)) <==> exists steps ::
      NoEnqueues(steps) && IsRun(run + steps) && Emptied(After(run + steps).q)
  {
    PlanIsDrainable(env, spec, eval, now, plan);
    DrainsExactlyWhenDrainable(run, ctx, plan);
  }

  // In range, the times are what they look like.
  lemma TimesInRange(spec: Spec, genesis: Time, slot: uint64)
    requires slot * spec.secondsPerSlot * SECOND < TWO_TO_63 && 2 * spec.secondsPerSlot * SECOND < TWO_TO_63
    ensures AtSlot(spec, genesis, slot) == genesis + slot * spec.secondsPerSlot * SECOND
    ensures FirstDelay(spec) == spec.secondsPerSlot * SECOND / 3
    ensures AggregationDelay(spec) == 2 * (spec.secondsPerSlot * SECOND) / 3
  {
    OffsetInRange(slot * spec.secondsPerSlot);
    DelaysInRange(spec.secondsPerSlot);
  }

  lemma OffsetInRange(seconds: nat)
    requires seconds * SECOND < TWO_TO_63
    ensures WrapInt64(ToInt64(Wrap(seconds)) * SECOND) == seconds * SECOND
  {
  }

  lemma DelaysInRange(seconds: uint64)
    requires 2 * seconds * SECOND < TWO_TO_63
    ensures WrapInt64(ToInt64(seconds) * SECOND) == seconds * SECOND
    ensures WrapInt64(seconds * SECOND * 2) == 2 * (seconds * SECOND)
  {
  }

  // The duties that an expansion creates, by id.
  ghost function IssuedBy(env: Env, ds: seq<DutySpec>): map<Id, DutySpec>
    requires UniqueIds(env)
  {
    if ds == [] then map[] else IssuedBy(env, ds[..|ds| - 1])[env.newId(|ds| - 1) := ds[|ds| - 1]]
  }

  lemma {:induction false} IssuedHas(env: Env, ds: seq<DutySpec>, id: Id)
    requires UniqueIds(env)
    ensures id in IssuedBy(env, ds) <==> exists k: nat :: k < |ds| && env.newId(k) == id
    ensures forall k: nat | k < |ds| && env.newId(k) == id :: id in IssuedBy(env, ds) && IssuedBy(env, ds)[id] == ds[k]
  {
    if ds != [] {
      IssuedHas(env, ds[..|ds| - 1], id);
    }
  }

  // Plans keep the promise that the workers rely on.
  lemma PlanIsIssued(env: Env, spec: Spec, eval: Evaluation, now: Time, plan: seq<Duty>)
    requires IsPlan(env, spec, eval, now, plan) && UniqueIds(env)
    ensures WellIssued(IssuedBy(env, Expand(env, spec, eval).value))
    ensures FromIssued(plan, IssuedBy(env, Expand(env, spec, eval).value))
  {
    var at := PlanPositions(env, spec, eval, now, plan);
    var ds := Expand(env, spec, eval).value;
    var issued := IssuedBy(env, ds);
    forall duty | duty in plan ensures duty.spec.id in issued && issued[duty.spec.id] == duty.spec {
      var i :| 0 <= i < |plan| && plan[i] == duty;
      assert DutyFits(env, spec, eval, ds, at[i]);
      IssuedHas(env, ds, duty.spec.id);
    }
    PlanIsWellIssued(env, spec, eval);
  }

  lemma PlanIsWellIssued(env: Env, spec: Spec, eval: Evaluation)
    requires Expand(env, spec, eval).Ok? && UniqueIds(env)
    ensures WellIssued(IssuedBy(env, Expand(env, spec, eval).value))
  {
    var ds := Expand(env, spec, eval).value;
    var issued := IssuedBy(env, ds);
    ExpansionFits(env, spec, eval);
    forall id | id in issued && issued[id].job.AttestationAggregate?
      ensures |issued[id].blockedBy| == 1 && issued[id].blockedBy[0] in issued
        && IsAttestationFor(issued[issued[id].blockedBy[0]], issued[id])
    {
      IssuedHas(env, ds, id);
      var k: nat :| k < |ds| && env.newId(k) == id;
      assert DutyFits(env, spec, eval, ds, k) && DutyFits(env, spec, eval, ds, k - 1);
      IssuedHas(env, ds, ds[k - 1].id);
    }
  }

  // Epochs whose ids do not clash keep it together.
  lemma IssuedTogether(a: map<Id, DutySpec>, b: map<Id, DutySpec>, plan: seq<Duty>)
    requires WellIssued(a) && WellIssued(b) && a.Keys !! b.Keys
    ensures WellIssued(a + b)
    ensures FromIssued(plan, a) || FromIssued(plan, b) ==> FromIssued(plan, a + b)
  {
  }
}
