/**
 * The two history tables, `dhp_history` and `plan_history`, as values.
 *
 * A table is a sequence of rows kept in ascending `history_id` order (the order in
 * which the `SERIAL` column hands out ids).  Every statement the store sends to a
 * history table is a function here: the per-patient `WHERE patient_name = ...`
 * filter, the `ORDER BY history_id DESC LIMIT ...` fetch, the rank-based trim and
 * the `DELETE ... WHERE history_id = ANY(...)`; the rollback split of the fetched
 * records is one more.  The lemmas state what these statements guarantee.
 */
module Ledger {

  /** One history row: `history_id`, `patient_name` and the snapshot columns. */
  datatype Entry<P> = Entry(id: nat, name: string, payload: P)

  /** What the rollback split decides from the fetched records. */
  datatype Selection<P> =
    | NonPositiveSteps
    | TooFewVersions(available: int)
    | Chosen(target: Entry<P>, superseded: seq<Entry<P>>)

  function Min(a: int, b: int): int { if a <= b then a else b }

  /**
   * How many rows of one patient survive a trim with the given `history_limit`:
   * the trim deletes every row whose rank exceeds the limit, so a negative limit
   * deletes them all, like 0.
   */
  function Retained(limit: int): nat { if limit < 0 then 0 else limit }

  /** Ids strictly increase along the table, so they are also unique. */
  ghost predicate Ascending<P>(log: seq<Entry<P>>) {
    forall i, j :: 0 <= i < j < |log| ==> log[i].id < log[j].id
  }

  /** Every id in the table is below the next value of the `SERIAL` sequence. */
  ghost predicate Below<P(!new)>(log: seq<Entry<P>>, bound: nat) {
    forall e :: e in log ==> e.id < bound
  }

  /** The live value equals the newest retained snapshot, if there is one. */
  ghost predicate HeadIs<P>(own: seq<Entry<P>>, live: P) {
    own != [] ==> own[|own| - 1].payload == live
  }

  /** The rows of one patient, in table order: `WHERE patient_name = name`. */
  function Of<P(==,!new)>(log: seq<Entry<P>>, name: string): (r: seq<Entry<P>>)
    ensures |r| <= |log|
  {
    if log == [] then []
    else if log[0].name == name then [log[0]] + Of(log[1..], name)
    else Of(log[1..], name)
  }

  /** The same rows in the opposite order. */
  function NewestFirst<T>(s: seq<T>): (r: seq<T>)
    ensures |r| == |s|
    ensures forall i :: 0 <= i < |s| ==> r[i] == s[|s| - 1 - i]
  {
    if s == [] then [] else NewestFirst(s[1..]) + [s[0]]
  }

  /**
   * `SELECT ... WHERE patient_name = name ORDER BY history_id DESC LIMIT count`:
   * the `count` newest rows of the patient, newest first.
   */
  function FetchRecent<P(==,!new)>(log: seq<Entry<P>>, name: string, count: nat): (r: seq<Entry<P>>)
    ensures |r| == Min(|Of(log, name)|, count)
    ensures forall i :: 0 <= i < |r| ==> r[i] == Of(log, name)[|Of(log, name)| - 1 - i]
  {
    var own := Of(log, name);
    NewestFirst(own)[..Min(|own|, count)]
  }

  /**
   * The number of the patient's rows with a larger `history_id` than `id`.  A row's
   * `ROW_NUMBER() OVER (ORDER BY history_id DESC)` is one more than this.
   */
  function NewerCount<P(==,!new)>(table: seq<Entry<P>>, name: string, id: nat): nat {
    if table == [] then 0
    else (if table[0].name == name && table[0].id > id then 1 else 0) + NewerCount(table[1..], name, id)
  }

  /** A row that the trim of `name`'s rows to `limit` leaves in place. */
  predicate Kept<P(==,!new)>(table: seq<Entry<P>>, name: string, limit: int, e: Entry<P>) {
    e.name != name || NewerCount(table, name, e.id) + 1 <= limit
  }

  /**
   * The rows of `rows` that survive `DELETE ... WHERE rn > limit`, with each row's
   * rank `rn` computed over the whole of `table`.
   */
  function Survivors<P(==,!new)>(table: seq<Entry<P>>, rows: seq<Entry<P>>, name: string, limit: int): seq<Entry<P>> {
    if rows == [] then []
    else if !Kept(table, name, limit, rows[0]) then
      Survivors(table, rows[1..], name, limit)
    else
      [rows[0]] + Survivors(table, rows[1..], name, limit)
  }

  /** The trim of `push_dhp` and `push_plan_status`, applied to the whole table. */
  function Trim<P(==,!new)>(log: seq<Entry<P>>, name: string, limit: int): seq<Entry<P>> {
    Survivors(log, log, name, limit)
  }

  /** The ids of some rows: `[rec['history_id'] for rec in records]`. */
  function Ids<P>(rows: seq<Entry<P>>): set<nat> {
    if rows == [] then {} else {rows[0].id} + Ids(rows[1..])
  }

  /** `DELETE ... WHERE history_id = ANY(ids)`. */
  function DeleteIds<P(==,!new)>(log: seq<Entry<P>>, ids: set<nat>): seq<Entry<P>> {
    if log == [] then []
    else if log[0].id in ids then DeleteIds(log[1..], ids)
    else [log[0]] + DeleteIds(log[1..], ids)
  }

  /**
   * The table without the patient's `k` newest rows (without all of them when there
   * are fewer): what a successful rollback by `k` versions leaves.
   */
  function DropNewest<P(==,!new)>(log: seq<Entry<P>>, name: string, k: nat): seq<Entry<P>>
    decreases |log|
  {
    if log == [] then []
    else
      var last := log[|log| - 1];
      if last.name == name && k > 0 then DropNewest(log[..|log| - 1], name, k - 1)
      else DropNewest(log[..|log| - 1], name, k) + [last]
  }

  /**
   * The rollback split: refuse a non-positive step count, fetch the `steps + 1`
   * newest rows, refuse when there are at most `steps` of them (reporting one less
   * as the number of previous versions), and otherwise pick `records[steps]` as the
   * target and `records[:steps]` as the rows it supersedes.
   */
  function Select<P(==,!new)>(log: seq<Entry<P>>, name: string, steps: int): (r: Selection<P>)
    ensures r.NonPositiveSteps? <==> steps <= 0
    ensures r.TooFewVersions? <==> 0 < steps && |Of(log, name)| <= steps
    ensures r.TooFewVersions? ==> r.available == |Of(log, name)| - 1
    ensures r.Chosen? ==>
      var own := Of(log, name);
      && 0 < steps < |own|
      && r.target == own[|own| - 1 - steps]
      && |r.superseded| == steps
      && forall i :: 0 <= i < steps ==> r.superseded[i] == own[|own| - 1 - i]
  {
    if steps <= 0 then NonPositiveSteps
    else
      var records := FetchRecent(log, name, steps + 1);
      if |records| <= steps then TooFewVersions(|records| - 1)
      else Chosen(records[steps], records[..steps])
  }

  // ---------------------------------------------------------------------------
  // The per-patient filter

  /** Putting the first row of an ascending table before some of its later rows keeps the order. */
  lemma {:induction false} ConsAscending<P(!new)>(rows: seq<Entry<P>>, rest: seq<Entry<P>>)
    requires rows != [] && forall e :: e in rest ==> e in rows[1..]
    ensures Ascending(rows) && Ascending(rest) ==> Ascending([rows[0]] + rest)
  {
    if Ascending(rows) && Ascending(rest) {
      forall k | 0 <= k < |rest| ensures rows[0].id < rest[k].id {
        assert rest[k] in rows[1..];
        var i :| 0 <= i < |rows[1..]| && rows[1..][i] == rest[k];
        assert rows[i + 1] == rest[k];
      }
      var r := [rows[0]] + rest;
      forall i, j | 0 <= i < j < |r| ensures r[i].id < r[j].id {
        if i > 0 {
          assert r[i] == rest[i - 1] && r[j] == rest[j - 1];
        } else {
          assert r[j] == rest[j - 1];
        }
      }
    }
  }

  lemma {:induction false} OfConcat<P(!new)>(a: seq<Entry<P>>, b: seq<Entry<P>>, name: string)
    ensures Of(a + b, name) == Of(a, name) + Of(b, name)
  {
    if a == [] {
      assert a + b == b;
    } else {
      assert (a + b)[1..] == a[1..] + b;
      OfConcat(a[1..], b, name);
    }
  }

  /** A patient with no row in the table has no history. */
  lemma {:induction false} OfAbsent<P(!new)>(log: seq<Entry<P>>, name: string)
    requires forall e :: e in log ==> e.name != name
    ensures Of(log, name) == []
  {
    if log != [] {
      assert log[0] in log;
      OfAbsent(log[1..], name);
    }
  }

  /** `WHERE patient_name = name` selects exactly the patient's rows. */
  lemma {:induction false} OfMembers<P(!new)>(log: seq<Entry<P>>, name: string)
    ensures forall e :: e in Of(log, name) <==> e in log && e.name == name
  {
    if log != [] {
      OfMembers(log[1..], name);
      assert log == [log[0]] + log[1..];
    }
  }

  /** The patient's rows keep the table's ascending order. */
  lemma {:induction false} OfAscending<P(!new)>(log: seq<Entry<P>>, name: string)
    ensures Ascending(log) ==> Ascending(Of(log, name))
  {
    if log != [] {
      OfAscending(log[1..], name);
      if Ascending(log) {
        assert Ascending(log[1..]);
        if log[0].name == name {
          OfMembers(log[1..], name);
          ConsAscending(log, Of(log[1..], name));
        }
      }
    }
  }

  // ---------------------------------------------------------------------------
  // Ranks

  lemma {:induction false} NewerCountConcat<P(!new)>(a: seq<Entry<P>>, b: seq<Entry<P>>, name: string, id: nat)
    ensures NewerCount(a + b, name, id) == NewerCount(a, name, id) + NewerCount(b, name, id)
  {
    if a == [] {
      assert a + b == b;
    } else {
      assert (a + b)[1..] == a[1..] + b;
      NewerCountConcat(a[1..], b, name, id);
    }
  }

  lemma {:induction false} NewerCountNone<P(!new)>(s: seq<Entry<P>>, name: string, id: nat)
    requires forall i :: 0 <= i < |s| ==> s[i].id <= id
    ensures NewerCount(s, name, id) == 0
  {
    if s != [] {
      NewerCountNone(s[1..], name, id);
    }
  }

  lemma {:induction false} NewerCountAll<P(!new)>(s: seq<Entry<P>>, name: string, id: nat)
    requires forall i :: 0 <= i < |s| ==> s[i].id > id
    ensures NewerCount(s, name, id) == |Of(s, name)|
  {
    if s != [] {
      NewerCountAll(s[1..], name, id);
    }
  }

  /** A rank counts only rows of the patient. */
  lemma {:induction false} NewerCountBound<P(!new)>(s: seq<Entry<P>>, name: string, id: nat)
    ensures NewerCount(s, name, id) <= |Of(s, name)|
  {
    if s != [] {
      NewerCountBound(s[1..], name, id);
    }
  }

  /** A row's own id is not newer than itself, so fewer rows than the patient has are newer. */
  lemma {:induction false} NewerCountOwn<P(!new)>(s: seq<Entry<P>>, e: Entry<P>)
    requires e in s
    ensures NewerCount(s, e.name, e.id) < |Of(s, e.name)|
  {
    if s[0] != e {
      NewerCountOwn(s[1..], e);
    } else {
      NewerCountBound(s[1..], e.name, e.id);
    }
  }

  /** In an ascending table the rank of row `x` counts exactly the patient's rows after it. */
  lemma {:induction false} NewerCountAt<P(!new)>(pre: seq<Entry<P>>, x: Entry<P>, rest: seq<Entry<P>>, name: string)
    requires Ascending(pre + [x] + rest)
    ensures NewerCount(pre + [x] + rest, name, x.id) == |Of(rest, name)|
  {
    var t := pre + [x] + rest;
    var after := [x] + rest;
    assert t == pre + after;
    forall i | 0 <= i < |pre| ensures pre[i].id <= x.id {
      assert t[i] == pre[i] && t[|pre|] == x;
    }
    forall i | 0 <= i < |rest| ensures rest[i].id > x.id {
      assert t[|pre| + 1 + i] == rest[i] && t[|pre|] == x;
    }
    NewerCountConcat(pre, after, name, x.id);
    NewerCountNone(pre, name, x.id);
    assert after[1..] == rest;
    NewerCountAll(rest, name, x.id);
  }

  // ---------------------------------------------------------------------------
  // Trim

  /** The trim deletes exactly the rows ranked beyond the limit. */
  lemma {:induction false} SurvivorsMembers<P(!new)>(table: seq<Entry<P>>, rows: seq<Entry<P>>, name: string, limit: int)
    ensures forall e :: e in Survivors(table, rows, name, limit) <==> e in rows && Kept(table, name, limit, e)
  {
    if rows != [] {
      SurvivorsMembers(table, rows[1..], name, limit);
      assert rows == [rows[0]] + rows[1..];
    }
  }

  /** The rows that survive the trim keep their ascending order. */
  lemma {:induction false} SurvivorsAscending<P(!new)>(table: seq<Entry<P>>, rows: seq<Entry<P>>, name: string, limit: int)
    ensures Ascending(rows) ==> Ascending(Survivors(table, rows, name, limit))
  {
    if rows != [] {
      SurvivorsAscending(table, rows[1..], name, limit);
      if Ascending(rows) {
        assert Ascending(rows[1..]);
        if Kept(table, name, limit, rows[0]) {
          SurvivorsMembers(table, rows[1..], name, limit);
          ConsAscending(rows, Survivors(table, rows[1..], name, limit));
        }
      }
    }
  }

  /**
   * One step of SurvivorsOwn: the first row is kept exactly when its rank is within
   * the limit.  The three cases are proved apart, which keeps each proof small.
   */
  lemma {:induction false} SurvivorsOwnStep<P(!new)>(table: seq<Entry<P>>, rows: seq<Entry<P>>, name: string, limit: int)
    requires rows != []
    requires rows[0].name == name ==> NewerCount(table, name, rows[0].id) == |Of(rows[1..], name)|
    requires var m := |Of(rows[1..], name)|;
      Of(Survivors(table, rows[1..], name, limit), name) == Of(rows[1..], name)[m - Min(m, Retained(limit))..]
    ensures var m := |Of(rows, name)|;
      Of(Survivors(table, rows, name, limit), name) == Of(rows, name)[m - Min(m, Retained(limit))..]
  {
    if rows[0].name != name {
      StepOther(table, rows, name, limit);
    } else if |Of(rows[1..], name)| + 1 > limit {
      StepDrop(table, rows, name, limit);
    } else {
      StepKeep(table, rows, name, limit);
    }
  }

  /** A row of another patient is kept and adds nothing to the patient's history. */
  lemma {:induction false} StepOther<P(!new)>(table: seq<Entry<P>>, rows: seq<Entry<P>>, name: string, limit: int)
    requires rows != [] && rows[0].name != name
    requires var m := |Of(rows[1..], name)|;
      Of(Survivors(table, rows[1..], name, limit), name) == Of(rows[1..], name)[m - Min(m, Retained(limit))..]
    ensures var m := |Of(rows, name)|;
      Of(Survivors(table, rows, name, limit), name) == Of(rows, name)[m - Min(m, Retained(limit))..]
  {
    var s := Survivors(table, rows[1..], name, limit);
    assert Of(rows, name) == Of(rows[1..], name);
    assert Survivors(table, rows, name, limit) == [rows[0]] + s;
    assert ([rows[0]] + s)[1..] == s;
  }

  /** A row of the patient ranked beyond the limit is deleted. */
  lemma {:induction false} StepDrop<P(!new)>(table: seq<Entry<P>>, rows: seq<Entry<P>>, name: string, limit: int)
    requires rows != [] && rows[0].name == name
    requires NewerCount(table, name, rows[0].id) == |Of(rows[1..], name)| && |Of(rows[1..], name)| + 1 > limit
    requires var m := |Of(rows[1..], name)|;
      Of(Survivors(table, rows[1..], name, limit), name) == Of(rows[1..], name)[m - Min(m, Retained(limit))..]
    ensures var m := |Of(rows, name)|;
      Of(Survivors(table, rows, name, limit), name) == Of(rows, name)[m - Min(m, Retained(limit))..]
  {
    var tail := Of(rows[1..], name);
    assert Of(rows, name) == [rows[0]] + tail;
    assert Survivors(table, rows, name, limit) == Survivors(table, rows[1..], name, limit);
    DropShift(rows[0], tail, Retained(limit));
  }

  /** A row of the patient ranked within the limit is kept, as the newest kept so far. */
  lemma {:induction false} StepKeep<P(!new)>(table: seq<Entry<P>>, rows: seq<Entry<P>>, name: string, limit: int)
    requires rows != [] && rows[0].name == name
    requires NewerCount(table, name, rows[0].id) == |Of(rows[1..], name)| && |Of(rows[1..], name)| + 1 <= limit
    requires var m := |Of(rows[1..], name)|;
      Of(Survivors(table, rows[1..], name, limit), name) == Of(rows[1..], name)[m - Min(m, Retained(limit))..]
    ensures var m := |Of(rows, name)|;
      Of(Survivors(table, rows, name, limit), name) == Of(rows, name)[m - Min(m, Retained(limit))..]
  {
    var tail := Of(rows[1..], name);
    var s := Survivors(table, rows[1..], name, limit);
    assert Of(rows, name) == [rows[0]] + tail;
    assert Survivors(table, rows, name, limit) == [rows[0]] + s;
    assert ([rows[0]] + s)[1..] == s;
    KeepShift(rows[0], tail, Retained(limit));
  }

  lemma {:induction false} DropShift<T>(x: T, tail: seq<T>, L: nat)
    requires L <= |tail|
    ensures var m := |tail|; ([x] + tail)[m + 1 - Min(m + 1, L)..] == tail[m - Min(m, L)..]
  {
  }

  lemma {:induction false} KeepShift<T>(x: T, tail: seq<T>, L: nat)
    requires |tail| < L
    ensures var m := |tail|; ([x] + tail)[m + 1 - Min(m + 1, L)..] == [x] + tail[m - Min(m, L)..]
  {
    assert tail[0..] == tail;
  }

  /** In an ascending table the trim keeps the patient's newest rows, as many as the limit allows. */
  lemma {:induction false} SurvivorsOwn<P(!new)>(pre: seq<Entry<P>>, rows: seq<Entry<P>>, name: string, limit: int)
    requires Ascending(pre + rows)
    decreases |rows|
    ensures var m := |Of(rows, name)|;
      Of(Survivors(pre + rows, rows, name, limit), name) == Of(rows, name)[m - Min(m, Retained(limit))..]
  {
    if rows != [] {
      var x, rest := rows[0], rows[1..];
      assert pre + rows == (pre + [x]) + rest == pre + [x] + rest by {
        assert rows == [x] + rest;
      }
      SurvivorsOwn(pre + [x], rest, name, limit);
      NewerCountAt(pre, x, rest, name);
      SurvivorsOwnStep(pre + rows, rows, name, limit);
    }
  }

  /** The trim of one patient's rows leaves every other patient's rows alone. */
  lemma {:induction false} SurvivorsOthers<P(!new)>(table: seq<Entry<P>>, rows: seq<Entry<P>>, name: string, limit: int, other: string)
    requires other != name
    ensures Of(Survivors(table, rows, name, limit), other) == Of(rows, other)
  {
    if rows != [] {
      SurvivorsOthers(table, rows[1..], name, limit, other);
      var s := Survivors(table, rows[1..], name, limit);
      if Kept(table, name, limit, rows[0]) {
        assert ([rows[0]] + s)[1..] == s;
      }
    }
  }

  /** Rows all of whose ranks are within the limit are all kept. */
  lemma {:induction false} SurvivorsAll<P(!new)>(table: seq<Entry<P>>, rows: seq<Entry<P>>, name: string, limit: int)
    requires forall e :: e in rows ==> Kept(table, name, limit, e)
    ensures Survivors(table, rows, name, limit) == rows
  {
    if rows != [] {
      assert rows[0] in rows;
      SurvivorsAll(table, rows[1..], name, limit);
      assert rows == [rows[0]] + rows[1..];
    }
  }

  /**
   * The trim keeps exactly the `min(count, limit)` newest rows of the patient, in
   * their original order, and no other patient's rows change.
   */
  lemma {:induction false} TrimKeepsNewest<P(!new)>(log: seq<Entry<P>>, name: string, limit: int)
    requires Ascending(log)
    ensures var n := |Of(log, name)|;
      && Of(Trim(log, name, limit), name) == Of(log, name)[n - Min(n, Retained(limit))..]
      && |Of(Trim(log, name, limit), name)| == Min(n, Retained(limit))
    ensures forall other :: other != name ==> Of(Trim(log, name, limit), other) == Of(log, other)
  {
    assert [] + log == log;
    SurvivorsOwn([], log, name, limit);
    forall other | other != name ensures Of(Trim(log, name, limit), other) == Of(log, other) {
      SurvivorsOthers(log, log, name, limit, other);
    }
  }

  /** A patient already within the limit loses nothing: the trim is then a no-op. */
  lemma {:induction false} TrimNoOp<P(!new)>(log: seq<Entry<P>>, name: string, limit: int)
    requires |Of(log, name)| <= Retained(limit)
    ensures Trim(log, name, limit) == log
  {
    forall e | e in log ensures Kept(log, name, limit, e) {
      if e.name == name {
        NewerCountOwn(log, e);
      }
    }
    SurvivorsAll(log, log, name, limit);
  }

  /** Trimming twice is trimming once: the rank rule corrects itself whatever the size. */
  lemma {:induction false} TrimIdempotent<P(!new)>(log: seq<Entry<P>>, name: string, limit: int)
    requires Ascending(log)
    ensures Trim(Trim(log, name, limit), name, limit) == Trim(log, name, limit)
  {
    TrimKeepsNewest(log, name, limit);
    TrimNoOp(Trim(log, name, limit), name, limit);
  }

  /**
   * A push: a row with a fresh id is appended, then the patient's rows are trimmed.
   * The patient keeps `min(count + 1, limit)` rows, the newest of the old ones plus
   * the new one, which is the newest whenever the limit is at least 1; no other
   * patient's rows change.
   */
  lemma {:induction false} PushHistory<P(!new)>(log: seq<Entry<P>>, e: Entry<P>, limit: int)
    requires Ascending(log) && Below(log, e.id)
    ensures var after := Trim(log + [e], e.name, limit);
      var own := Of(log, e.name) + [e];
      && Of(after, e.name) == own[|own| - Min(|own|, Retained(limit))..]
      && |Of(after, e.name)| == Min(|Of(log, e.name)| + 1, Retained(limit))
      && (limit >= 1 ==> Of(after, e.name)[|Of(after, e.name)| - 1] == e)
      && HeadIs(Of(after, e.name), e.payload)
    ensures forall other :: other != e.name ==> Of(Trim(log + [e], e.name, limit), other) == Of(log, other)
  {
    var grown := log + [e];
    PushAscending(log, e);
    OfConcat(log, [e], e.name);
    assert Of([e], e.name) == [e];
    TrimKeepsNewest(grown, e.name, limit);
    forall other | other != e.name ensures Of(grown, other) == Of(log, other) {
      OfConcat(log, [e], other);
      assert Of([e], other) == [];
    }
  }

  /** Appending a row with a fresh id keeps the table ascending. */
  lemma {:induction false} PushAscending<P(!new)>(log: seq<Entry<P>>, e: Entry<P>)
    requires Ascending(log) && Below(log, e.id)
    ensures Ascending(log + [e])
  {
    var grown := log + [e];
    forall i, j | 0 <= i < j < |grown| ensures grown[i].id < grown[j].id {
      if j == |log| {
        assert grown[i] == log[i] && log[i] in log;
      }
    }
  }

  /**
   * After a push the table is still ascending and below the advanced sequence, and it
   * holds only rows it held before and the new row.
   */
  lemma {:induction false} PushShape<P(!new)>(log: seq<Entry<P>>, e: Entry<P>, limit: int)
    requires Ascending(log) && Below(log, e.id)
    ensures var after := Trim(log + [e], e.name, limit);
      && Ascending(after)
      && Below(after, e.id + 1)
      && (forall f :: f in after ==> f in log || f == e)
  {
    var grown := log + [e];
    PushAscending(log, e);
    SurvivorsAscending(grown, grown, e.name, limit);
    SurvivorsMembers(grown, grown, e.name, limit);
  }

  // ---------------------------------------------------------------------------
  // Delete by ids

  /** `DELETE ... WHERE history_id = ANY(ids)` deletes exactly the rows with those ids. */
  lemma {:induction false} DeleteMembers<P(!new)>(log: seq<Entry<P>>, ids: set<nat>)
    ensures forall e :: e in DeleteIds(log, ids) <==> e in log && e.id !in ids
  {
    if log != [] {
      DeleteMembers(log[1..], ids);
      assert log == [log[0]] + log[1..];
    }
  }

  lemma {:induction false} DeleteConcat<P(!new)>(a: seq<Entry<P>>, b: seq<Entry<P>>, ids: set<nat>)
    ensures DeleteIds(a + b, ids) == DeleteIds(a, ids) + DeleteIds(b, ids)
  {
    if a == [] {
      assert a + b == b;
    } else {
      assert (a + b)[1..] == a[1..] + b;
      DeleteConcat(a[1..], b, ids);
    }
  }

  // ---------------------------------------------------------------------------
  // Rollback

  /** Every row's id is in the id set. */
  lemma {:induction false} IdsMembers<P(!new)>(rows: seq<Entry<P>>)
    ensures forall e :: e in rows ==> e.id in Ids(rows)
  {
    if rows != [] {
      IdsMembers(rows[1..]);
      assert rows == [rows[0]] + rows[1..];
    }
  }

  /** Every id in the id set is the id of one of the rows. */
  lemma {:induction false} IdsWitness<P(!new)>(rows: seq<Entry<P>>, x: nat)
    requires x in Ids(rows)
    ensures exists e :: e in rows && e.id == x
  {
    if rows[0].id != x {
      IdsWitness(rows[1..], x);
      var e :| e in rows[1..] && e.id == x;
      assert e in rows;
    }
  }

  /** An id that no row carries is not in the id set. */
  lemma {:induction false} IdsExclude<P(!new)>(rows: seq<Entry<P>>, x: nat)
    requires forall f :: f in rows ==> f.id != x
    ensures x !in Ids(rows)
  {
    if rows != [] {
      assert rows[0] in rows;
      IdsExclude(rows[1..], x);
    }
  }

  /** Rows with the same members carry the same ids. */
  lemma {:induction false} IdsOfSameRows<P(!new)>(a: seq<Entry<P>>, b: seq<Entry<P>>)
    requires forall e :: e in a <==> e in b
    ensures Ids(a) == Ids(b)
  {
    IdsMembers(a);
    IdsMembers(b);
    forall x | x in Ids(a) ensures x in Ids(b) {
      IdsWitness(a, x);
      var e :| e in a && e.id == x;
      assert e in b;
    }
    forall x | x in Ids(b) ensures x in Ids(a) {
      IdsWitness(b, x);
      var e :| e in b && e.id == x;
      assert e in a;
    }
  }

  /** The `k` newest rows listed newest first carry the ids of the last `k` rows. */
  lemma {:induction false} ReversedSuffixIds<P(!new)>(own: seq<Entry<P>>, sup: seq<Entry<P>>, k: nat)
    requires k <= |own| && |sup| == k
    requires forall i :: 0 <= i < k ==> sup[i] == own[|own| - 1 - i]
    ensures Ids(sup) == Ids(own[|own| - k..])
  {
    var newer := own[|own| - k..];
    forall e | e in sup ensures e in newer {
      var i :| 0 <= i < k && sup[i] == e;
      assert e == newer[k - 1 - i];
    }
    forall e | e in newer ensures e in sup {
      var i :| 0 <= i < k && newer[i] == e;
      assert e == sup[k - 1 - i];
    }
    IdsOfSameRows(sup, newer);
  }

  /** The id set of two row sequences together is the union of their id sets. */
  lemma {:induction false} IdsConcat<P(!new)>(a: seq<Entry<P>>, b: seq<Entry<P>>)
    ensures Ids(a + b) == Ids(a) + Ids(b)
  {
    if a != [] {
      assert (a + b)[0] == a[0] && (a + b)[1..] == a[1..] + b;
      IdsConcat(a[1..], b);
      assert Ids(a + b) == {a[0].id} + Ids(a[1..] + b);
    } else {
      assert a + b == b;
    }
  }

  /** Adding to the delete an id that no row carries changes nothing. */
  lemma {:induction false} DeleteAbsentId<P(!new)>(log: seq<Entry<P>>, ids: set<nat>, x: nat)
    requires forall e :: e in log ==> e.id != x
    ensures DeleteIds(log, ids + {x}) == DeleteIds(log, ids)
  {
    if log != [] {
      assert log[0] in log;
      assert forall e :: e in log[1..] ==> e in log;
      DeleteAbsentId(log[1..], ids, x);
    }
  }

  /** The rows before the last row of an ascending table all have smaller ids. */
  lemma {:induction false} AscendingInit<P(!new)>(log: seq<Entry<P>>)
    requires Ascending(log) && log != []
    ensures Ascending(log[..|log| - 1])
    ensures forall e :: e in log[..|log| - 1] ==> e.id < log[|log| - 1].id
  {
    var init := log[..|log| - 1];
    forall e | e in init ensures e.id < log[|log| - 1].id {
      var i :| 0 <= i < |init| && init[i] == e;
      assert log[i] == e;
    }
  }

  /** A patient's history ends with the table's last row exactly when that row is theirs. */
  lemma {:induction false} OfLast<P(!new)>(log: seq<Entry<P>>, name: string)
    requires log != []
    ensures var last := log[|log| - 1];
      Of(log, name) == Of(log[..|log| - 1], name) + (if last.name == name then [last] else [])
  {
    assert log == log[..|log| - 1] + [log[|log| - 1]];
    OfConcat(log[..|log| - 1], [log[|log| - 1]], name);
  }

  /** Deleting from a table deletes from its rows before the last, then keeps or deletes the last. */
  lemma {:induction false} DeleteLast<P(!new)>(log: seq<Entry<P>>, ids: set<nat>)
    requires log != []
    ensures var last := log[|log| - 1];
      DeleteIds(log, ids) == DeleteIds(log[..|log| - 1], ids) + (if last.id in ids then [] else [last])
  {
    assert log == log[..|log| - 1] + [log[|log| - 1]];
    DeleteConcat(log[..|log| - 1], [log[|log| - 1]], ids);
  }

  /**
   * Deleting the ids of the patient's `k` newest rows is dropping those rows: the
   * `DELETE ... WHERE history_id = ANY(...)` of a rollback removes exactly them.
   */
  lemma {:induction false} DeleteIsDrop<P(!new)>(log: seq<Entry<P>>, name: string, own: seq<Entry<P>>, k: nat)
    requires Ascending(log) && own == Of(log, name) && k <= |own|
    ensures DeleteIds(log, Ids(own[|own| - k..])) == DropNewest(log, name, k)
    decreases |log|
  {
    if k == 0 {
      assert own[|own| - k..] == [];
      DeleteNothing(log);
      DropNothing(log, name);
    } else if log != [] {
      var init, last := log[..|log| - 1], log[|log| - 1];
      var own' := Of(init, name);
      AscendingInit(log);
      OfLast(log, name);
      DeleteLast(log, Ids(own[|own| - k..]));
      if last.name == name {
        DeleteIsDrop(init, name, own', k - 1);
        DropNewestCase(init, last, own', k);
      } else {
        assert own == own';
        DeleteIsDrop(init, name, own', k);
        DropOtherCase(init, last, name, own', k);
      }
    }
  }

  /** Deleting no ids keeps every row. */
  lemma {:induction false} DeleteNothing<P(!new)>(log: seq<Entry<P>>)
    ensures DeleteIds(log, {}) == log
  {
    if log != [] {
      DeleteNothing(log[1..]);
      assert log == [log[0]] + log[1..];
    }
  }

  /** Dropping no rows keeps the table as it is. */
  lemma {:induction false} DropNothing<P(!new)>(log: seq<Entry<P>>, name: string)
    ensures DropNewest(log, name, 0) == log
    decreases |log|
  {
    if log != [] {
      var init, last := log[..|log| - 1], log[|log| - 1];
      assert log == init + [last];
      DropNothing(init, name);
      assert DropNewest(log, name, 0) == DropNewest(init, name, 0) + [last];
    }
  }

  /**
   * The step of DeleteIsDrop where the last row is one of the `k` to delete: its id
   * is among the deleted ones and the older rows lose exactly the other `k - 1`.
   */
  lemma {:induction false} DropNewestCase<P(!new)>(init: seq<Entry<P>>, last: Entry<P>, own': seq<Entry<P>>, k: nat)
    requires 0 < k <= |own'| + 1
    requires forall e :: e in init ==> e.id < last.id
    ensures var own := own' + [last];
      && last.id in Ids(own[|own| - k..])
      && DeleteIds(init, Ids(own[|own| - k..])) == DeleteIds(init, Ids(own'[|own'| - (k - 1)..]))
  {
    var own := own' + [last];
    var newer := own'[|own'| - (k - 1)..];
    assert own[|own| - k..] == newer + [last];
    IdsConcat(newer, [last]);
    assert Ids([last]) == {last.id};
    DeleteAbsentId(init, Ids(newer), last.id);
  }

  /** The step of DeleteIsDrop where the last row belongs to another patient: it is kept. */
  lemma {:induction false} DropOtherCase<P(!new)>(init: seq<Entry<P>>, last: Entry<P>, name: string, own': seq<Entry<P>>, k: nat)
    requires own' == Of(init, name) && k <= |own'|
    requires forall e :: e in init ==> e.id < last.id
    ensures last.id !in Ids(own'[|own'| - k..])
  {
    var newer := own'[|own'| - k..];
    OfMembers(init, name);
    forall f | f in newer ensures f.id != last.id {
      assert f in own';
    }
    IdsExclude(newer, last.id);
  }

  /** The patient's history after dropping `k` rows is its older prefix. */
  lemma {:induction false} DropOwn<P(!new)>(log: seq<Entry<P>>, name: string, k: nat)
    requires k <= |Of(log, name)|
    ensures Of(DropNewest(log, name, k), name) == Of(log, name)[..|Of(log, name)| - k]
    decreases |log|
  {
    var own := Of(log, name);
    if k == 0 {
      DropNothing(log, name);
      assert own[..|own|] == own;
    } else if log != [] {
      var init, last := log[..|log| - 1], log[|log| - 1];
      var own' := Of(init, name);
      OfLast(log, name);
      if last.name == name {
        DropOwn(init, name, k - 1);
        assert own[..|own| - k] == own'[..|own'| - (k - 1)];
      } else {
        DropOwn(init, name, k);
        OfLast(DropNewest(init, name, k) + [last], name);
        assert (DropNewest(init, name, k) + [last])[..|DropNewest(init, name, k)|] == DropNewest(init, name, k);
      }
    }
  }

  /** Dropping one patient's rows leaves every other patient's rows alone. */
  lemma {:induction false} DropOthers<P(!new)>(log: seq<Entry<P>>, name: string, k: nat, other: string)
    requires other != name
    ensures Of(DropNewest(log, name, k), other) == Of(log, other)
    decreases |log|
  {
    if log != [] {
      var init, last := log[..|log| - 1], log[|log| - 1];
      assert log == init + [last];
      OfConcat(init, [last], other);
      if last.name == name && k > 0 {
        assert Of([last], other) == [];
        DropOthers(init, name, k - 1, other);
      } else {
        DropOthers(init, name, k, other);
        OfConcat(DropNewest(init, name, k), [last], other);
      }
    }
  }

  /** Dropping rows adds no row. */
  lemma {:induction false} DropMembers<P(!new)>(log: seq<Entry<P>>, name: string, k: nat)
    ensures forall e :: e in DropNewest(log, name, k) ==> e in log
    decreases |log|
  {
    if log != [] {
      var init, last := log[..|log| - 1], log[|log| - 1];
      assert log == init + [last];
      if last.name == name && k > 0 {
        DropMembers(init, name, k - 1);
      } else {
        DropMembers(init, name, k);
      }
    }
  }

  /** Dropping rows keeps the table ascending. */
  lemma {:induction false} DropShape<P(!new)>(log: seq<Entry<P>>, name: string, k: nat)
    requires Ascending(log)
    ensures Ascending(DropNewest(log, name, k))
    decreases |log|
  {
    if log != [] {
      var init, last := log[..|log| - 1], log[|log| - 1];
      assert log == init + [last];
      AscendingInit(log);
      if last.name == name && k > 0 {
        DropShape(init, name, k - 1);
      } else {
        DropShape(init, name, k);
        DropMembers(init, name, k);
        PushAscending(DropNewest(init, name, k), last);
      }
    }
  }

  /** After dropping the `k` newest rows the newest row left is the one `k` versions back. */
  lemma {:induction false} DropHead<P(!new)>(log: seq<Entry<P>>, name: string, k: nat)
    requires k < |Of(log, name)|
    ensures HeadIs(Of(DropNewest(log, name, k), name), Of(log, name)[|Of(log, name)| - 1 - k].payload)
  {
    DropOwn(log, name, k);
    PrefixHead(Of(log, name), k);
  }

  /** The newest row of a history without its `k` newest rows is the one `k` versions back. */
  lemma {:induction false} PrefixHead<P>(own: seq<Entry<P>>, k: nat)
    requires k < |own|
    ensures HeadIs(own[..|own| - k], own[|own| - 1 - k].payload)
  {
  }

  /**
   * `after` is `log` without the patient's `k` newest rows, as the histories tell it:
   * the patient's history is the older prefix, every other patient's is unchanged, no
   * row is new and the order of ids is kept.
   */
  ghost predicate IsDropOfNewest<P(!new)>(log: seq<Entry<P>>, after: seq<Entry<P>>, name: string, k: nat) {
    && k <= |Of(log, name)|
    && Of(after, name) == Of(log, name)[..|Of(log, name)| - k]
    && (forall p :: p != name ==> Of(after, p) == Of(log, p))
    && (forall e :: e in after ==> e in log)
    && (Ascending(log) ==> Ascending(after))
  }

  /** After the drop the patient's newest row left is the one `k` versions back. */
  lemma {:induction false} DropOfNewestHead<P(!new)>(log: seq<Entry<P>>, after: seq<Entry<P>>, name: string, k: nat)
    requires IsDropOfNewest(log, after, name, k) && k < |Of(log, name)|
    ensures HeadIs(Of(after, name), Of(log, name)[|Of(log, name)| - 1 - k].payload)
  {
    PrefixHead(Of(log, name), k);
  }

  /** DropNewest drops the patient's `k` newest rows and nothing else. */
  lemma {:induction false} DropNewestIsDrop<P(!new)>(log: seq<Entry<P>>, name: string, k: nat)
    requires k <= |Of(log, name)|
    ensures IsDropOfNewest(log, DropNewest(log, name, k), name, k)
  {
    DropOwn(log, name, k);
    forall p | p != name ensures Of(DropNewest(log, name, k), p) == Of(log, p) {
      DropOthers(log, name, k, p);
    }
    if Ascending(log) {
      DropShape(log, name, k);
    }
    DropMembers(log, name, k);
  }

  /**
   * The superseded rows the rollback split picks are the patient's `steps` newest, so
   * deleting their ids drops exactly those rows.
   */
  lemma {:induction false} RollbackDelete<P(!new)>(log: seq<Entry<P>>, name: string, steps: nat, sup: seq<Entry<P>>)
    requires Ascending(log)
    requires var own := Of(log, name);
      steps <= |own| && |sup| == steps && forall i :: 0 <= i < steps ==> sup[i] == own[|own| - 1 - i]
    ensures DeleteIds(log, Ids(sup)) == DropNewest(log, name, steps)
  {
    var own := Of(log, name);
    ReversedSuffixIds(own, sup, steps);
    DeleteIsDrop(log, name, own, steps);
  }

  /**
   * A successful rollback split, followed by the delete of the superseded ids,
   * removes exactly the `steps` newest rows of the patient (what is left of the
   * patient's history is the older prefix in its original order, no other patient's
   * rows change), and the newest row left is the target.
   */
  lemma {:induction false} RollbackHistory<P(!new)>(log: seq<Entry<P>>, name: string, steps: int)
    requires Ascending(log)
    requires Select(log, name, steps).Chosen?
    ensures var choice := Select(log, name, steps);
      && DeleteIds(log, Ids(choice.superseded)) == DropNewest(log, name, steps)
      && IsDropOfNewest(log, DropNewest(log, name, steps), name, steps)
      && HeadIs(Of(DropNewest(log, name, steps), name), choice.target.payload)
  {
    var choice := Select(log, name, steps);
    RollbackDelete(log, name, steps, choice.superseded);
    DropNewestIsDrop(log, name, steps);
    DropOfNewestHead(log, DropNewest(log, name, steps), name, steps);
  }

  // ---------------------------------------------------------------------------
  // The invariant of one history table

  /**
   * A history table over a set of patients: ids ascend and stay below the next value
   * of the sequence, every row names one of the patients (the foreign key), and no
   * patient keeps more rows than the limit.
   */
  ghost predicate Wellformed<P(!new)>(log: seq<Entry<P>>, next: nat, keys: set<string>, limit: int) {
    && Ascending(log)
    && Below(log, next)
    && (forall e :: e in log ==> e.name in keys)
    && (forall p :: p in keys ==> |Of(log, p)| <= Retained(limit))
  }

  /** A new patient has no rows yet, so adding patients keeps a table well formed. */
  lemma {:induction false} WellformedGrow<P(!new)>(log: seq<Entry<P>>, next: nat, keys: set<string>, keys': set<string>, limit: int)
    requires Wellformed(log, next, keys, limit) && keys <= keys'
    ensures Wellformed(log, next, keys', limit)
    ensures forall p :: p in keys' && p !in keys ==> Of(log, p) == []
  {
    forall p | p in keys' && p !in keys ensures Of(log, p) == [] {
      OfAbsent(log, p);
    }
  }

  /** A push of a row of a known patient with the next id keeps the table well formed. */
  lemma {:induction false} PushWellformed<P(!new)>(log: seq<Entry<P>>, next: nat, keys: set<string>, limit: int, e: Entry<P>)
    requires Wellformed(log, next, keys, limit) && e.id == next && e.name in keys
    ensures Wellformed(Trim(log + [e], e.name, limit), next + 1, keys, limit)
  {
    PushShape(log, e, limit);
    PushHistory(log, e, limit);
  }

  /**
   * A table whose rows are among the old one's and that drops exactly one patient's
   * `k` newest rows, as each patient's history tells, is well formed when the old one
   * is.
   */
  lemma {:induction false} DropsWellformed<P(!new)>(log: seq<Entry<P>>, after: seq<Entry<P>>, next: nat, keys: set<string>,
                                                   limit: int, name: string, k: nat)
    requires Wellformed(log, next, keys, limit) && IsDropOfNewest(log, after, name, k)
    ensures Wellformed(after, next, keys, limit)
  {
    forall p | p in keys ensures |Of(after, p)| <= Retained(limit) {
      if p != name {
        assert Of(after, p) == Of(log, p);
      }
    }
  }
}
