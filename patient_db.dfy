/**
 * The patient record store: the `patients` table with one live row per patient,
 * and the `dhp_history` and `plan_history` tables with bounded, rollback-capable
 * snapshot logs.  Each public method of the store is one atomic transition of a
 * `PatientDatabase` object.
 */
module PatientDb {
  import opened Wrappers
  import opened Ledger
  import opened Tables

  /**
   * A DHP document as `push_dhp` takes it and `get_dhp` returns it: the three
   * `hard` keys ("Patient Alias", the procedure, the time of the most recent update)
   * and `soft`.  `None` is a missing key or `None` value.
   */
  datatype DhpDocument = DhpDocument(
    alias: Option<string>,
    procedure: Option<string>,
    lastUpdated: Option<string>,
    soft: Option<string>)

  datatype DbError =
    | MissingPatientAlias   // the `ValueError` of `push_dhp`
    | ForeignKeyViolation   // `plan_history.patient_name` names no patient

  /** What a rollback reports; the source prints it and returns `None`. */
  datatype RollbackOutcome =
    | RolledBack
    | InvalidSteps
    | InsufficientHistory(available: int)

  /** `if not patient_name`: the alias must be present and non-empty. */
  predicate HasAlias(doc: DhpDocument) {
    doc.alias.Some? && doc.alias.value != ""
  }

  /** The columns `push_dhp` writes: a missing `soft` becomes the empty string. */
  function FieldsOf(doc: DhpDocument): DhpFields {
    DhpFields(doc.procedure, doc.lastUpdated, if doc.soft.Some? then doc.soft.value else "")
  }

  /** The document `get_dhp` builds from a patient's name and DHP columns. */
  function DocumentOf(name: string, fields: DhpFields): DhpDocument {
    DhpDocument(Some(name), fields.procedure, fields.lastUpdated, Some(fields.softData))
  }

  class PatientDatabase {
    /** `patients`, keyed by the unique `patient_name`. */
    var patients: map<string, PatientRow>
    /** `dhp_history` and `plan_history`, in ascending `history_id` order. */
    var dhpHist: seq<Entry<DhpFields>>
    var planHist: seq<Entry<Plan>>
    /** The next values of the two `SERIAL` sequences. */
    var nextDhpId: nat
    var nextPlanId: nat
    /** `history_limit`: how many snapshots of each kind a patient keeps. */
    const historyLimit: int

    /**
     * The store's invariant: both history tables are well formed over the known
     * patients (ids ascend and stay below the sequences, every row names a patient,
     * no patient keeps more snapshots than the limit), and each patient's live
     * columns equal their newest snapshot.
     */
    ghost predicate Valid()
      reads this
    {
      Consistent(patients, dhpHist, planHist, nextDhpId, nextPlanId, historyLimit)
    }

    /** A store over freshly created, empty tables; `history_limit` defaults to 10. */
    constructor (historyLimit: int := 10)
      ensures Valid()
      ensures this.historyLimit == historyLimit
      ensures patients == map[] && dhpHist == [] && planHist == []
      ensures nextDhpId == 1 && nextPlanId == 1
    {
      this.historyLimit := historyLimit;
      patients := map[];
      dhpHist := [];
      planHist := [];
      nextDhpId := 1;
      nextPlanId := 1;
    }

    /** `get_dhp`: the stored alias and DHP columns, or `None` for an unknown patient. */
    function GetDhp(name: string): (r: Option<DhpDocument>)
      reads this
      ensures r.None? <==> name !in patients
      ensures r.Some? ==> r.value.alias == Some(name) && FieldsOf(r.value) == patients[name].dhp
      ensures r.Some? ==> r.value.soft == Some(patients[name].dhp.softData)
    {
      if name in patients then Some(DocumentOf(name, patients[name].dhp)) else None
    }

    /** `get_plan_status`: the current plan, or `None` for an unknown patient or an empty plan. */
    function GetPlanStatus(name: string): (r: Option<Plan>)
      reads this
      ensures r.None? <==> name !in patients || patients[name].currentPlan == EmptyPlan
      ensures r.Some? ==> r.value == patients[name].currentPlan && r.value != EmptyPlan
    {
      if name in patients && patients[name].currentPlan != EmptyPlan then Some(patients[name].currentPlan)
      else None
    }

    /**
     * `push_dhp`: upsert the patient's DHP columns (a new patient gets an empty plan),
     * append a snapshot, and trim the patient's DHP history to the limit.
     */
    method PushDhp(doc: DhpDocument) returns (r: Result<string, DbError>)
      requires Valid()
      modifies this
      ensures Valid()
      ensures r.Failure? <==> !HasAlias(doc)
      ensures r.Failure? ==> r.error == MissingPatientAlias && unchanged(this)
      ensures r.Success? ==>
        var alias, fields := r.value, FieldsOf(doc);
        && doc.alias == Some(alias)
        && patients == Upsert(old(patients), alias, fields)
        && dhpHist == Trim(old(dhpHist) + [Entry(old(nextDhpId), alias, fields)], alias, historyLimit)
        && nextDhpId == old(nextDhpId) + 1
        && planHist == old(planHist) && nextPlanId == old(nextPlanId)
      // reading back returns what was pushed; a patient created here has no plan
      ensures r.Success? ==> GetDhp(r.value) == Some(DocumentOf(r.value, FieldsOf(doc)))
      ensures r.Success? && r.value !in old(patients) ==> GetPlanStatus(r.value) == None
      ensures r.Success? && r.value in old(patients) ==> GetPlanStatus(r.value) == old(GetPlanStatus(r.value))
    {
      if !HasAlias(doc) {
        return Failure(MissingPatientAlias);
      }
      var alias := doc.alias.value;
      var fields := FieldsOf(doc);
      PushDhpStep(patients, dhpHist, planHist, nextDhpId, nextPlanId, historyLimit, alias, fields);
      // INSERT INTO patients ... ON CONFLICT (patient_name) DO UPDATE
      patients := Upsert(patients, alias, fields);
      // INSERT INTO dhp_history
      dhpHist := dhpHist + [Entry(nextDhpId, alias, fields)];
      nextDhpId := nextDhpId + 1;
      // DELETE the rows ranked beyond history_limit
      dhpHist := Trim(dhpHist, alias, historyLimit);
      r := Success(alias);
    }

    /**
     * `push_plan_status`: append a plan snapshot, make it the current plan and trim
     * the patient's plan history to the limit.  For an unknown patient the insert
     * violates the foreign key of `plan_history`, and nothing changes.
     */
    method PushPlanStatus(name: string, plan: Plan) returns (r: Outcome<DbError>)
      requires Valid()
      modifies this
      ensures Valid()
      ensures r.Fail? <==> name !in old(patients)
      ensures r.Fail? ==> r.error == ForeignKeyViolation && unchanged(this)
      ensures r.Pass? ==>
        var e := Entry(old(nextPlanId), name, plan);
        && patients == old(patients)[name := old(patients)[name].(currentPlan := plan)]
        && planHist == Trim(old(planHist) + [e], name, historyLimit)
        && nextPlanId == old(nextPlanId) + 1
        && dhpHist == old(dhpHist) && nextDhpId == old(nextDhpId)
      // reading back returns what was pushed; the DHP columns stay as they were
      ensures r.Pass? ==> GetPlanStatus(name) == if plan == EmptyPlan then None else Some(plan)
      ensures r.Pass? ==> GetDhp(name) == old(GetDhp(name))
    {
      if name !in patients {
        return Fail(ForeignKeyViolation);
      }
      PushPlanStep(patients, dhpHist, planHist, nextDhpId, nextPlanId, historyLimit, name, plan);
      // INSERT INTO plan_history
      planHist := planHist + [Entry(nextPlanId, name, plan)];
      nextPlanId := nextPlanId + 1;
      // UPDATE patients SET current_plan
      patients := patients[name := patients[name].(currentPlan := plan)];
      // DELETE the rows ranked beyond history_limit
      planHist := Trim(planHist, name, historyLimit);
      r := Pass;
    }

    /**
     * `rollback_dhp`: make the snapshot `steps` versions back the live DHP columns
     * and delete the `steps` newer snapshots.
     */
    method RollbackDhp(name: string, steps: int := 1) returns (r: RollbackOutcome)
      requires Valid()
      modifies this
      ensures Valid()
      ensures r == InvalidSteps <==> steps <= 0
      ensures r.InsufficientHistory? <==> 0 < steps && |Of(old(dhpHist), name)| <= steps
      ensures r.InsufficientHistory? ==> r.available == |Of(old(dhpHist), name)| - 1
      ensures r != RolledBack ==> unchanged(this)
      ensures r == RolledBack ==> Select(old(dhpHist), name, steps).Chosen? && name in old(patients)
      ensures r == RolledBack ==>
        patients == old(patients)[name := old(patients)[name].(dhp := Select(old(dhpHist), name, steps).target.payload)]
      ensures r == RolledBack ==> dhpHist == DropNewest(old(dhpHist), name, steps)
      ensures r == RolledBack ==> planHist == old(planHist) && nextDhpId == old(nextDhpId) && nextPlanId == old(nextPlanId)
      ensures r == RolledBack ==> GetDhp(name) == Some(DocumentOf(name, Select(old(dhpHist), name, steps).target.payload))
    {
      var choice := Select(dhpHist, name, steps);
      match choice
      case NonPositiveSteps =>
        r := InvalidSteps;
      case TooFewVersions(available) =>
        r := InsufficientHistory(available);
      case Chosen(target, superseded) =>
        RollbackDhpChosen(patients, dhpHist, planHist, nextDhpId, nextPlanId, historyLimit, name, steps);
        // UPDATE patients SET procedure, last_updated, soft_data
        patients := patients[name := patients[name].(dhp := target.payload)];
        // DELETE FROM dhp_history WHERE history_id = ANY(ids)
        dhpHist := DeleteIds(dhpHist, Ids(superseded));
        r := RolledBack;
    }

    /**
     * `rollback_plan`: make the snapshot `steps` versions back the current plan and
     * delete the `steps` newer snapshots.
     */
    method RollbackPlan(name: string, steps: int := 1) returns (r: RollbackOutcome)
      requires Valid()
      modifies this
      ensures Valid()
      ensures r == InvalidSteps <==> steps <= 0
      ensures r.InsufficientHistory? <==> 0 < steps && |Of(old(planHist), name)| <= steps
      ensures r.InsufficientHistory? ==> r.available == |Of(old(planHist), name)| - 1
      ensures r != RolledBack ==> unchanged(this)
      ensures r == RolledBack ==> Select(old(planHist), name, steps).Chosen? && name in old(patients)
      ensures r == RolledBack ==>
        patients == old(patients)[name := old(patients)[name].(currentPlan := Select(old(planHist), name, steps).target.payload)]
      ensures r == RolledBack ==> planHist == DropNewest(old(planHist), name, steps)
      ensures r == RolledBack ==> dhpHist == old(dhpHist) && nextDhpId == old(nextDhpId) && nextPlanId == old(nextPlanId)
      ensures r == RolledBack ==>
        var live := Select(old(planHist), name, steps).target.payload;
        GetPlanStatus(name) == (if live == EmptyPlan then None else Some(live))
    {
      var choice := Select(planHist, name, steps);
      match choice
      case NonPositiveSteps =>
        r := InvalidSteps;
      case TooFewVersions(available) =>
        r := InsufficientHistory(available);
      case Chosen(target, superseded) =>
        RollbackPlanChosen(patients, dhpHist, planHist, nextDhpId, nextPlanId, historyLimit, name, steps);
        // UPDATE patients SET current_plan
        patients := patients[name := patients[name].(currentPlan := target.payload)];
        // DELETE FROM plan_history WHERE history_id = ANY(ids)
        planHist := DeleteIds(planHist, Ids(superseded));
        r := RolledBack;
    }
  }
}
