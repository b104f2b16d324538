/**
 * The three tables of the patient record store as values: the live `patients` rows
 * and the two snapshot histories, the invariant that ties them together, and the
 * step of each public operation on them.
 */
module Tables {
  import opened Wrappers
  import opened Ledger

  /** The DHP columns of a `patients` row, and the snapshot columns of `dhp_history`. */
  datatype DhpFields = DhpFields(procedure: Option<string>, lastUpdated: Option<string>, softData: string)

  /**
   * A `current_plan` or `plan_snapshot` value.  The plan document is opaque:
   * `Document` holds it; `EmptyPlan` is `'{}'::jsonb`, and stands for every
   * document Python treats as false.
   */
  datatype Plan = EmptyPlan | Document(body: string)

  /** The live columns of a `patients` row; the row's key is the patient name. */
  datatype PatientRow = PatientRow(dhp: DhpFields, currentPlan: Plan)

  /** Each patient's DHP columns equal their newest DHP snapshot, if any is left. */
  ghost predicate DhpMirrors(patients: map<string, PatientRow>, log: seq<Entry<DhpFields>>) {
    forall p :: p in patients ==> HeadIs(Of(log, p), patients[p].dhp)
  }

  /** Each patient's current plan equals their newest plan snapshot, if any is left. */
  ghost predicate PlanMirrors(patients: map<string, PatientRow>, log: seq<Entry<Plan>>) {
    forall p :: p in patients ==> HeadIs(Of(log, p), patients[p].currentPlan)
  }

  /** Rewriting one patient's row after a change to that patient's DHP history keeps the mirror. */
  lemma {:induction false} DhpMirrorsUpdate(patients: map<string, PatientRow>, log: seq<Entry<DhpFields>>, log': seq<Entry<DhpFields>>,
                         name: string, row: PatientRow)
    requires DhpMirrors(patients, log)
    requires forall p :: p != name ==> Of(log', p) == Of(log, p)
    requires HeadIs(Of(log', name), row.dhp)
    ensures DhpMirrors(patients[name := row], log')
  {
    forall p | p in patients[name := row] ensures HeadIs(Of(log', p), patients[name := row][p].dhp) {
      if p != name {
        assert Of(log', p) == Of(log, p);
      }
    }
  }

  /** Rewriting one patient's row after a change to that patient's plan history keeps the mirror. */
  lemma {:induction false} PlanMirrorsUpdate(patients: map<string, PatientRow>, log: seq<Entry<Plan>>, log': seq<Entry<Plan>>,
                          name: string, row: PatientRow)
    requires PlanMirrors(patients, log)
    requires forall p :: p != name ==> Of(log', p) == Of(log, p)
    requires HeadIs(Of(log', name), row.currentPlan)
    ensures PlanMirrors(patients[name := row], log')
  {
    forall p | p in patients[name := row] ensures HeadIs(Of(log', p), patients[name := row][p].currentPlan) {
      if p != name {
        assert Of(log', p) == Of(log, p);
      }
    }
  }

  /**
   * The tables of a store, as values: both history tables well formed over the known
   * patients, and each patient's live columns equal to their newest snapshots.
   */
  ghost predicate Consistent(patients: map<string, PatientRow>, dhpHist: seq<Entry<DhpFields>>, planHist: seq<Entry<Plan>>,
                             nextDhpId: nat, nextPlanId: nat, limit: int) {
    && Wellformed(dhpHist, nextDhpId, patients.Keys, limit)
    && Wellformed(planHist, nextPlanId, patients.Keys, limit)
    && DhpMirrors(patients, dhpHist)
    && PlanMirrors(patients, planHist)
  }

  /**
   * `INSERT INTO patients ... ON CONFLICT (patient_name) DO UPDATE`: a known patient's
   * DHP columns are overwritten and the plan kept; a new patient gets the DHP columns
   * and the empty plan; no other row changes.
   */
  function Upsert(patients: map<string, PatientRow>, alias: string, fields: DhpFields): (r: map<string, PatientRow>)
    ensures r.Keys == patients.Keys + {alias}
    ensures r[alias].dhp == fields
    ensures r[alias].currentPlan == if alias in patients then patients[alias].currentPlan else EmptyPlan
    ensures forall p :: p in patients && p != alias ==> r[p] == patients[p]
  {
    patients[alias := if alias in patients then patients[alias].(dhp := fields) else PatientRow(fields, EmptyPlan)]
  }

  /** `push_dhp` keeps the tables consistent. */
  lemma {:induction false} PushDhpStep(patients: map<string, PatientRow>, dhpHist: seq<Entry<DhpFields>>, planHist: seq<Entry<Plan>>,
                    nextDhpId: nat, nextPlanId: nat, limit: int, alias: string, fields: DhpFields)
    requires Consistent(patients, dhpHist, planHist, nextDhpId, nextPlanId, limit)
    ensures Consistent(Upsert(patients, alias, fields), Trim(dhpHist + [Entry(nextDhpId, alias, fields)], alias, limit),
                       planHist, nextDhpId + 1, nextPlanId, limit)
  {
    var e := Entry(nextDhpId, alias, fields);
    var rows := Upsert(patients, alias, fields);
    var row := rows[alias];
    assert rows == patients[alias := row];
    WellformedGrow(dhpHist, nextDhpId, patients.Keys, rows.Keys, limit);
    WellformedGrow(planHist, nextPlanId, patients.Keys, rows.Keys, limit);
    PushWellformed(dhpHist, nextDhpId, rows.Keys, limit, e);
    PushHistory(dhpHist, e, limit);
    DhpMirrorsUpdate(patients, dhpHist, Trim(dhpHist + [e], alias, limit), alias, row);
    PlanMirrorsUpdate(patients, planHist, planHist, alias, row);
  }

  /** `push_plan_status` of a known patient keeps the tables consistent. */
  lemma {:induction false} PushPlanStep(patients: map<string, PatientRow>, dhpHist: seq<Entry<DhpFields>>, planHist: seq<Entry<Plan>>,
                     nextDhpId: nat, nextPlanId: nat, limit: int, name: string, plan: Plan)
    requires Consistent(patients, dhpHist, planHist, nextDhpId, nextPlanId, limit)
    requires name in patients
    ensures Consistent(patients[name := patients[name].(currentPlan := plan)], dhpHist,
                       Trim(planHist + [Entry(nextPlanId, name, plan)], name, limit), nextDhpId, nextPlanId + 1, limit)
  {
    var e := Entry(nextPlanId, name, plan);
    var row := patients[name].(currentPlan := plan);
    assert patients[name := row].Keys == patients.Keys;
    PushWellformed(planHist, nextPlanId, patients.Keys, limit, e);
    PushHistory(planHist, e, limit);
    PlanMirrorsUpdate(patients, planHist, Trim(planHist + [e], name, limit), name, row);
    DhpMirrorsUpdate(patients, dhpHist, dhpHist, name, row);
  }

  /**
   * The tables stay consistent when `after` is the DHP history with the patient's
   * `steps` newest snapshots removed and nothing else changed, and the patient's DHP
   * columns become `live`, the newest snapshot left.  A patient with snapshots is a
   * known one.
   */
  lemma {:induction false} RollbackDhpStep(patients: map<string, PatientRow>, dhpHist: seq<Entry<DhpFields>>, planHist: seq<Entry<Plan>>,
                        nextDhpId: nat, nextPlanId: nat, limit: int, name: string, steps: nat,
                        after: seq<Entry<DhpFields>>, live: DhpFields)
    requires Consistent(patients, dhpHist, planHist, nextDhpId, nextPlanId, limit)
    requires 0 < steps && IsDropOfNewest(dhpHist, after, name, steps)
    requires HeadIs(Of(after, name), live)
    ensures name in patients
    ensures Consistent(patients[name := patients[name].(dhp := live)], after, planHist, nextDhpId, nextPlanId, limit)
  {
    assert name in patients by {
      if name !in patients {
        OfAbsent(dhpHist, name);
      }
    }
    var row := patients[name].(dhp := live);
    assert patients[name := row].Keys == patients.Keys;
    DropsWellformed(dhpHist, after, nextDhpId, patients.Keys, limit, name, steps);
    DhpMirrorsUpdate(patients, dhpHist, after, name, row);
    PlanMirrorsUpdate(patients, planHist, planHist, name, row);
  }

  /**
   * The tables stay consistent when `after` is the plan history with the patient's
   * `steps` newest snapshots removed and nothing else changed, and the patient's
   * current plan becomes `live`, the newest snapshot left.  A patient with snapshots
   * is a known one.
   */
  lemma {:induction false} RollbackPlanStep(patients: map<string, PatientRow>, dhpHist: seq<Entry<DhpFields>>, planHist: seq<Entry<Plan>>,
                        nextDhpId: nat, nextPlanId: nat, limit: int, name: string, steps: nat,
                        after: seq<Entry<Plan>>, live: Plan)
    requires Consistent(patients, dhpHist, planHist, nextDhpId, nextPlanId, limit)
    requires 0 < steps && IsDropOfNewest(planHist, after, name, steps)
    requires HeadIs(Of(after, name), live)
    ensures name in patients
    ensures Consistent(patients[name := patients[name].(currentPlan := live)], dhpHist, after, nextDhpId, nextPlanId, limit)
  {
    assert name in patients by {
      if name !in patients {
        OfAbsent(planHist, name);
      }
    }
    var row := patients[name].(currentPlan := live);
    assert patients[name := row].Keys == patients.Keys;
    DropsWellformed(planHist, after, nextPlanId, patients.Keys, limit, name, steps);
    PlanMirrorsUpdate(patients, planHist, after, name, row);
    DhpMirrorsUpdate(patients, dhpHist, dhpHist, name, row);
  }

  /**
   * `rollback_dhp` when the split chose a target: the patient is known, deleting the
   * superseded ids drops exactly the patient's `steps` newest DHP snapshots, and
   * making the target the live DHP columns keeps the tables consistent.
   */
  lemma {:induction false} RollbackDhpChosen(patients: map<string, PatientRow>, dhpHist: seq<Entry<DhpFields>>, planHist: seq<Entry<Plan>>,
                        nextDhpId: nat, nextPlanId: nat, limit: int, name: string, steps: int)
    requires Consistent(patients, dhpHist, planHist, nextDhpId, nextPlanId, limit)
    requires Select(dhpHist, name, steps).Chosen?
    ensures var choice := Select(dhpHist, name, steps);
      && name in patients
      && DeleteIds(dhpHist, Ids(choice.superseded)) == DropNewest(dhpHist, name, steps)
      && Consistent(patients[name := patients[name].(dhp := choice.target.payload)], DeleteIds(dhpHist, Ids(choice.superseded)),
                    planHist, nextDhpId, nextPlanId, limit)
  {
    var choice := Select(dhpHist, name, steps);
    RollbackHistory(dhpHist, name, steps);
    RollbackDhpStep(patients, dhpHist, planHist, nextDhpId, nextPlanId, limit, name, steps, DropNewest(dhpHist, name, steps), choice.target.payload);
  }

  /**
   * `rollback_plan` when the split chose a target: the patient is known, deleting the
   * superseded ids drops exactly the patient's `steps` newest plan snapshots, and
   * making the target the current plan keeps the tables consistent.
   */
  lemma {:induction false} RollbackPlanChosen(patients: map<string, PatientRow>, dhpHist: seq<Entry<DhpFields>>, planHist: seq<Entry<Plan>>,
                        nextDhpId: nat, nextPlanId: nat, limit: int, name: string, steps: int)
    requires Consistent(patients, dhpHist, planHist, nextDhpId, nextPlanId, limit)
    requires Select(planHist, name, steps).Chosen?
    ensures var choice := Select(planHist, name, steps);
      && name in patients
      && DeleteIds(planHist, Ids(choice.superseded)) == DropNewest(planHist, name, steps)
      && Consistent(patients[name := patients[name].(currentPlan := choice.target.payload)], dhpHist,
                    DeleteIds(planHist, Ids(choice.superseded)), nextDhpId, nextPlanId, limit)
  {
    var choice := Select(planHist, name, steps);
    RollbackHistory(planHist, name, steps);
    RollbackPlanStep(patients, dhpHist, planHist, nextDhpId, nextPlanId, limit, name, steps, DropNewest(planHist, name, steps), choice.target.payload);
  }
}
