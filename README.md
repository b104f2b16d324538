# Patient record store: a Dafny model of `PatientDatabase`

`PatientDatabase` in `patient_db.py` keeps a patient's live state and two bounded
snapshot histories in three PostgreSQL tables:

- `patients` has one row per unique `patient_name`. The row holds the live DHP
  columns (`procedure`, `last_updated`, `soft_data`) and the `current_plan` document.
- `dhp_history` and `plan_history` are logs of snapshots. Each row has a `SERIAL`
  `history_id` and a foreign key to `patients(patient_name)`.

The model is an in-memory state machine, not SQL.

- **Module `Wrappers`** (`wrappers.dfy`): `Option`, `Result` and `Outcome`.
- **Module `Ledger`** (`ledger.dfy`) models a history table as a sequence of
  `Entry(id, name, payload)` rows in ascending `history_id` order. It gives a pure
  function for each statement the store sends to a history table:
  - `Of`: the per-patient filter;
  - `FetchRecent`: the `ORDER BY history_id DESC LIMIT n` fetch;
  - `Trim`: the rank-based trim, defined row by row through `ROW_NUMBER() OVER (ORDER BY history_id DESC)`;
  - `DeleteIds`: `DELETE ... WHERE history_id = ANY(...)`;
  - `Select`: the rollback split of the fetched records.

  `DropNewest` is a separate reference definition: "the table without the
  patient's `k` newest rows". The lemmas state what push and rollback do to each
  patient's history:
  - trimming keeps the newest rows;
  - it keeps at most the limit;
  - other patients stay untouched;
  - rollback's delete-by-ids is exactly `DropNewest`.
- **Module `Tables`** (`tables.dfy`) models the `patients` row and the upsert. It
  also holds the store invariant `Consistent`:
  - both histories are ascending and below their sequences;
  - every snapshot names a known patient (the foreign key);
  - no patient has more snapshots than the limit;
  - each patient's live columns equal their newest snapshot.

  It proves that every operation keeps this invariant.
- **Module `PatientDb`** (`patient_db.dfy`) holds class `PatientDatabase`.
  - Its fields are `patients`, `dhpHist`, `planHist` and the two id counters
    `nextDhpId` and `nextPlanId`, with `historyLimit` as a constant.
  - Its methods are `PushDhp`, `PushPlanStatus`, `RollbackDhp` and `RollbackPlan`. Each
    is one atomic step that changes the fields in the order the SQL statements
    run. Its `ensures` give the new state and the reported outcome.
  - `GetDhp` and `GetPlanStatus` are functions that read the object.

Inputs and results follow the source:
- a DHP document is a record with an optional alias, procedure, update time and `soft`;
- a missing alias raises, here `Failure(MissingPatientAlias)`;
- a rollback's printed messages become `RollbackOutcome` values;
- a plan document is opaque, and `EmptyPlan` is `'{}'::jsonb`.

`historyLimit` is an `int`, as in Python. A negative limit trims like 0, because the
trim deletes every row with `rn > history_limit`.

Two edge cases follow the code closely:
- **Plan push for an unknown patient.** `push_plan_status` inserts into
  `plan_history` first. For an unknown patient that insert violates the foreign key
  at `patient_db.py:56`. The model returns `Fail(ForeignKeyViolation)` and changes
  nothing.
- **Rollback for an unknown patient.** The fetch finds no rows, so the rollback
  reports `InsufficientHistory(-1)`: the code prints `len(history_records) - 1`
  previous versions.

The default arguments are kept: the constructor's `historyLimit` defaults to 10, and
the `steps` of both rollbacks defaults to 1.

## Model

| member | source | states |
|---|---|---|
| PatientDb.PatientDatabase.constructor | patient_db.py:14-69 | the store keeps the given `history_limit` (10 by default); freshly created tables are empty, both `SERIAL` sequences start at 1, and the store invariant holds |
| PatientDb.PatientDatabase.GetDhp | patient_db.py:232-250 | `None` exactly for an unknown patient; otherwise the stored alias, procedure and update time, and the stored soft data as a present string |
| PatientDb.PatientDatabase.GetPlanStatus | patient_db.py:252-262 | `None` exactly when the patient is unknown or the plan is empty; otherwise the current plan |
| PatientDb.PatientDatabase.PushDhp | patient_db.py:71-121 | a missing or empty alias fails with no change; otherwise the upsert, the appended snapshot with the next id and the trim; the alias is returned; the plan tables are untouched; the invariant is kept; reading back returns the pushed fields; a patient created here has no plan, and a known patient's plan is kept |
| PatientDb.PatientDatabase.PushPlanStatus | patient_db.py:123-154 | fails with a foreign-key violation exactly for an unknown patient, with no change; otherwise the appended snapshot, the new current plan and the trim; the DHP tables and the DHP read are untouched; the invariant is kept; reading back returns the plan, or `None` for the empty plan |
| PatientDb.PatientDatabase.RollbackDhp | patient_db.py:156-193 | `steps <= 0` is refused; at most `steps` snapshots are refused and report count-1 available versions; both refusals change nothing; a success makes the snapshot `steps` versions back the live DHP, deletes exactly the patient's `steps` newest DHP snapshots, leaves the plan tables and counters untouched and keeps the invariant |
| PatientDb.PatientDatabase.RollbackPlan | patient_db.py:195-230 | the same for the plan: refusals change nothing; a success makes the snapshot `steps` versions back the current plan, deletes exactly the `steps` newest plan snapshots and leaves the DHP tables untouched |
| Tables.Upsert | patient_db.py:87-95 | the patient becomes known; their DHP columns are the pushed ones; their plan is kept when already known, and a new patient gets the empty plan; every other row is unchanged |
| Tables.DhpMirrorsUpdate | patient_db.py:178-188 | rewriting one patient's row keeps the live-equals-newest-DHP-snapshot property, when only that patient's history changed and the new row matches its head |
| Tables.PlanMirrorsUpdate | patient_db.py:133-138 | the same for the current plan and the plan history |
| Tables.PushDhpStep | patient_db.py:87-119 | the upsert, the insert with the next id and the trim keep the store invariant |
| Tables.PushPlanStep | patient_db.py:126-152 | the plan insert, the current-plan update and the trim of a known patient keep the store invariant |
| Tables.RollbackDhpStep | patient_db.py:178-191 | dropping a patient's `steps` newest DHP snapshots and making the newest one left live keeps the invariant; such a patient is known |
| Tables.RollbackPlanStep | patient_db.py:217-228 | the same for the plan history and the current plan |
| Tables.RollbackDhpChosen | patient_db.py:161-191 | after a split that chose a target, the patient is known, deleting the superseded ids is `DropNewest` of `steps`, and the update plus the delete keep the invariant |
| Tables.RollbackPlanChosen | patient_db.py:200-228 | the same for `rollback_plan` |
| Ledger.NewestFirst | patient_db.py:165 | `ORDER BY history_id DESC`: the same rows, in reverse order |
| Ledger.FetchRecent | patient_db.py:161-168 | the fetch returns the `min(count, n)` newest rows of the patient, newest first |
| Ledger.Select | patient_db.py:157-176 | refuses exactly `steps <= 0`; refuses exactly when the patient has at most `steps` rows, reporting count-1; otherwise the target is the row `steps` versions back, and the superseded rows are the `steps` newest, newest first |
| Ledger.OfMembers | patient_db.py:114 | the per-patient filter holds exactly the table's rows of that patient |
| Ledger.OfAbsent | patient_db.py:161-172 | a patient with no rows in the table has an empty history, so the fetch finds nothing |
| Ledger.SurvivorsMembers | patient_db.py:107-119 | the trim deletes exactly the rows whose rank exceeds the limit |
| Ledger.TrimKeepsNewest | patient_db.py:107-119 | the patient keeps exactly their `min(n, limit)` newest rows, in order; other patients' rows are unchanged |
| Ledger.TrimNoOp | patient_db.py:107-119 | a patient within the limit loses nothing |
| Ledger.TrimIdempotent | patient_db.py:107-152 | trimming twice is trimming once, for the DHP trim and the plan trim alike |
| Ledger.PushHistory | patient_db.py:99-119 | after append and trim, the patient has `min(count+1, limit)` rows: the newest of the old rows and the new one; the new row is the newest whenever the limit is at least 1; other patients' rows are unchanged |
| Ledger.PushAscending | patient_db.py:99-103 | appending a row whose id exceeds every existing id keeps ids ascending |
| Ledger.PushShape | patient_db.py:99-119 | after a push the table is ascending, below the advanced sequence, and holds only old rows and the new one |
| Ledger.DeleteMembers | patient_db.py:190-191 | the delete by ids removes exactly the rows with those ids |
| Ledger.DeleteIsDrop | patient_db.py:174-191 | deleting the ids of the patient's `k` newest rows is dropping those rows |
| Ledger.DropOwn | patient_db.py:174-191 | after dropping `k` rows, the patient's history is its older prefix in its original order |
| Ledger.DropOthers | patient_db.py:174-191 | dropping one patient's rows leaves every other patient's history unchanged |
| Ledger.DropMembers | patient_db.py:190-191 | a rollback's delete adds no row |
| Ledger.DropShape | patient_db.py:190-191 | a rollback's delete keeps ids ascending |
| Ledger.DropHead | patient_db.py:174-188 | after dropping the `k` newest rows, the newest row left is the one `k` versions back |
| Ledger.DropNewestIsDrop | patient_db.py:174-191 | `DropNewest` removes exactly the patient's `k` newest rows and nothing else |
| Ledger.RollbackDelete | patient_db.py:174-191 | deleting the ids of the superseded rows (the `steps` newest, newest first) is `DropNewest` of `steps` |
| Ledger.RollbackHistory | patient_db.py:161-191 | after a split that chose a target, the delete removes exactly the patient's `steps` newest rows, and the newest row left is the target |
| Ledger.WellformedGrow | patient_db.py:87-95 | adding patients keeps a history table well formed, and a new patient has no rows |
| Ledger.PushWellformed | patient_db.py:99-119 | pushing a known patient's row with the next id keeps the table well formed: ascending, below the sequence, foreign key, bounded by the limit |
| Ledger.DropsWellformed | patient_db.py:174-191 | dropping one patient's newest rows keeps the table well formed |

## Left out

- The psycopg connection, the `conninfo` string and `close` are left out. They are
  driver plumbing.
- `_execute_query` commits each statement on its own, so a failure half-way leaves
  a partial update. The model treats each operation as one atomic step. It also leaves
  out the aborted-transaction state a failed statement leaves on the connection.
- The DDL of `create_tables` is left out. The constructor builds the state that the
  freshly created, empty tables hold; a pre-populated database is not modelled.
- `json.dumps` of plans and every non-string payload type are left out. A plan is an
  opaque `Document` or `EmptyPlan`, and `EmptyPlan` stands for every JSON value that
  Python treats as false.
- `export_dhp_to_json` and `export_plan_status_to_json` are left out. They are file I/O.
- All `print` messages are left out. The outcome each one signals is kept.
- `patients.patient_id` (`SERIAL`) is left out. Nothing in the core reads it.
- `ON DELETE CASCADE` is left out. The core never deletes a patient.
- PushPlanStatus: in PostgreSQL, the `plan_history` insert that fails on the foreign
  key still consumes a `SERIAL` value. In the model the failure leaves `nextPlanId`
  unchanged.
- PushDhp: a `soft` key with an explicit `None` value would store SQL `NULL`. The
  model treats it like a missing key, which stores `""`.
- `history_limit` is a constant of the object, fixed when it is constructed. Changing
  it on a live store is not modelled, and neither is the lazy convergence that would
  follow.
- RollbackDhp: the untouched plan is stated through the `patients` equation and the
  unchanged `planHist`, not through a second `GetPlanStatus` clause.
- RollbackPlan: the untouched DHP columns are stated the same way, without a
  `GetDhp` clause.
- Ids: `history_id` is a PostgreSQL `SERIAL` (a 32-bit `integer`), and the rollback
  deletes through an `::int[]` cast. Once a sequence passes 2^31 − 1, every push
  raises. The model's ids are unbounded `nat`s and never run out.
- Text: PostgreSQL `TEXT` rejects the NUL character. In the source, an alias,
  procedure, update time or soft string that contains `"\0"` makes the statement
  raise. The model accepts such strings and the operation succeeds.
- RollbackDhp, RollbackPlan: the source sends `steps + 1` as the `LIMIT` of the
  fetch, and PostgreSQL reads it as a `bigint`. A step count of 2^63 − 1 or more
  makes the source raise ("bigint out of range"). The model has no such bound: it
  reports `InsufficientHistory` and changes nothing.
