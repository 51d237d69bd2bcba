/** The `time_entries` table and its repository (feature/timeentry): the
    entity, the query `findAllByUserSub` builds, the order its result comes
    in, the hour sums the validator takes over it, and the three statements
    that change the table. */
module TimeEntries {
  import opened Wrappers
  import opened Jvm

  /** One registration of hours. `timeEntryId` is null until the row is
      inserted; `timer` is a number of hours. */
  datatype TimeEntry = TimeEntry(
    timeEntryId: Option<int>,
    prosjektId: int,
    userSub: string,
    dato: Date,
    timer: real,
    kommentar: Option<string>,
    opprettetDato: Timestamp,
    sistEndret: Timestamp,
    version: int)

  /** `TimeEntry(prosjektId, userSub, dato, timer, kommentar)` with the
      constructor's defaults: no id, both timestamps `now`, version 1. */
  function NewEntry(prosjektId: int, userSub: string, dato: Date, timer: real,
                    kommentar: Option<string>, now: Timestamp): (r: TimeEntry)
    ensures r.timeEntryId.None? && r.version == 1
    ensures r.opprettetDato == r.sistEndret == now
    ensures (r.prosjektId, r.userSub, r.dato, r.timer, r.kommentar) == (prosjektId, userSub, dato, timer, kommentar)
  {
    TimeEntry(None, prosjektId, userSub, dato, timer, kommentar, now, now, 1)
  }

  /** Every stored row has an id, and no two rows share one. */
  predicate UniqueIds(rows: seq<TimeEntry>) {
    && (forall e :: e in rows ==> e.timeEntryId.Some?)
    && (forall i, j :: 0 <= i < j < |rows| ==> rows[i].timeEntryId != rows[j].timeEntryId)
  }

  /** A row whose id no later row carries can be put in front. */
  lemma PrependUnique(e: TimeEntry, rows: seq<TimeEntry>)
    requires UniqueIds(rows) && e.timeEntryId.Some?
    requires forall x :: x in rows ==> x.timeEntryId != e.timeEntryId
    ensures UniqueIds([e] + rows)
  {
    var r := [e] + rows;
    forall i, j | 0 <= i < j < |r| ensures r[i].timeEntryId != r[j].timeEntryId {
      assert r[j] == rows[j - 1] && rows[j - 1] in rows;
      if i > 0 {
        assert r[i] == rows[i - 1];
      }
    }
  }

  /** `WHERE time_entry_id = ? AND user_sub = ?`. A null id matches no row. */
  predicate Matches(e: TimeEntry, id: Option<int>, userSub: string) {
    id.Some? && e.timeEntryId == id && e.userSub == userSub
  }

  /** `findByIdAndUserSub`: the first row with this id and owner, if any. */
  function FindByIdAndUserSub(rows: seq<TimeEntry>, id: int, userSub: string): (r: Option<TimeEntry>)
    ensures r.Some? ==> r.value in rows && Matches(r.value, Some(id), userSub)
    ensures r.None? <==> forall e :: e in rows ==> !Matches(e, Some(id), userSub)
  {
    if rows == [] then None
    else if Matches(rows[0], Some(id), userSub) then Some(rows[0])
    else FindByIdAndUserSub(rows[1..], id, userSub)
  }

  // ---------------------------------------------------------------------------
  // findAllByUserSub: the WHERE clause is built one condition at a time, each
  // with its positional parameter.

  /** The conditions the query can carry: `user_sub = ?`, `dato >= ?`, `dato <= ?`. */
  datatype Condition = UserSubEquals | DatoAtLeast | DatoAtMost

  /** A bound parameter. */
  datatype Param = SubParam(sub: string) | DateParam(date: Date)

  /** The statement's WHERE conditions and its parameter list, in order. */
  datatype Query = Query(conditions: seq<Condition>, params: seq<Param>)

  /** Condition `c` with parameter `p` bound to its `?`, on row `e`; a
      parameter of the wrong kind selects nothing. */
  predicate Holds(c: Condition, p: Param, e: TimeEntry) {
    match (c, p)
    case (UserSubEquals, SubParam(s)) => e.userSub == s
    case (DatoAtLeast, DateParam(d)) => e.dato >= d
    case (DatoAtMost, DateParam(d)) => e.dato <= d
    case _ => false
  }

  /** Row `e` satisfies the WHERE clause: the i-th parameter binds the i-th `?`. */
  predicate Selects(q: Query, e: TimeEntry) {
    |q.conditions| == |q.params|
    && forall i :: 0 <= i < |q.conditions| ==> Holds(q.conditions[i], q.params[i], e)
  }

  /** What the caller asks for: the subject's entries within the given bounds. */
  predicate InRange(e: TimeEntry, userSub: string, from: Option<Date>, to: Option<Date>) {
    && e.userSub == userSub
    && (from.Some? ==> e.dato >= from.value)
    && (to.Some? ==> e.dato <= to.value)
  }

  function BoundsGiven(from: Option<Date>, to: Option<Date>): nat {
    (if from.Some? then 1 else 0) + (if to.Some? then 1 else 0)
  }

  /** The query `findAllByUserSub` builds. */
  function FindAllQuery(userSub: string, from: Option<Date>, to: Option<Date>): (q: Query)
    ensures |q.conditions| == |q.params| == 1 + BoundsGiven(from, to)
    ensures forall e :: Selects(q, e) <==> InRange(e, userSub, from, to)
  {
    var q0 := Query([UserSubEquals], [SubParam(userSub)]);
    var q1 := if from.Some? then Query(q0.conditions + [DatoAtLeast], q0.params + [DateParam(from.value)]) else q0;
    var q2 := if to.Some? then Query(q1.conditions + [DatoAtMost], q1.params + [DateParam(to.value)]) else q1;
    assert forall e :: Selects(q2, e) <==> InRange(e, userSub, from, to) by {
      forall e ensures Selects(q2, e) <==> InRange(e, userSub, from, to) {
        assert Holds(q2.conditions[0], q2.params[0], e) <==> e.userSub == userSub;
        if from.Some? {
          assert Holds(q2.conditions[1], q2.params[1], e) <==> e.dato >= from.value;
        }
        if to.Some? {
          var k := |q2.conditions| - 1;
          assert Holds(q2.conditions[k], q2.params[k], e) <==> e.dato <= to.value;
        }
      }
    }
    q2
  }

  /** The rows the WHERE clause selects, in table order. */
  function Select(rows: seq<TimeEntry>, q: Query): (r: seq<TimeEntry>)
    ensures forall e :: e in r <==> e in rows && Selects(q, e)
    ensures multiset(r) <= multiset(rows)
  {
    if rows == [] then []
    else
      assert rows == [rows[0]] + rows[1..];
      (if Selects(q, rows[0]) then [rows[0]] else []) + Select(rows[1..], q)
  }

  // ---------------------------------------------------------------------------
  // ORDER BY dato DESC, time_entry_id DESC

  function IdValue(e: TimeEntry): int {
    e.timeEntryId.GetOr(0)
  }

  /** `a` may come before `b`: a later date, or the same date and an id at
      least as large. */
  predicate NotAfter(a: TimeEntry, b: TimeEntry) {
    a.dato > b.dato || (a.dato == b.dato && IdValue(a) >= IdValue(b))
  }

  predicate NewestFirst(s: seq<TimeEntry>) {
    forall i, j :: 0 <= i < j < |s| ==> NotAfter(s[i], s[j])
  }

  /** One row put into a newest-first sequence: before the first row it is
      not after. */
  function InsertNewestFirst(e: TimeEntry, s: seq<TimeEntry>): (r: seq<TimeEntry>)
    ensures |r| == |s| + 1
  {
    if s == [] || NotAfter(e, s[0]) then [e] + s
    else [s[0]] + InsertNewestFirst(e, s[1..])
  }

  lemma {:induction false} InsertKeepsOrder(e: TimeEntry, s: seq<TimeEntry>)
    requires NewestFirst(s)
    ensures NewestFirst(InsertNewestFirst(e, s))
    ensures multiset(InsertNewestFirst(e, s)) == multiset(s) + multiset{e}
  {
    HeadNotAfterAll(s);
    if s == [] || NotAfter(e, s[0]) {
      PrependNewestFirst(e, s);
    } else {
      NewestFirstTail(s);
      InsertKeepsOrder(e, s[1..]);
      var rest := InsertNewestFirst(e, s[1..]);
      assert s == [s[0]] + s[1..];
      forall x | x in rest ensures NotAfter(s[0], x) {
        assert x in multiset(rest);
        assert x == e || x in s[1..];
      }
      PrependNewestFirst(s[0], rest);
    }
  }

  lemma HeadNotAfterAll(s: seq<TimeEntry>)
    requires NewestFirst(s)
    ensures s != [] ==> forall x :: x in s ==> NotAfter(s[0], x)
  {
    forall x | x in s ensures NotAfter(s[0], x) {
      var j :| 0 <= j < |s| && s[j] == x;
    }
  }

  lemma NewestFirstTail(s: seq<TimeEntry>)
    requires NewestFirst(s) && s != []
    ensures NewestFirst(s[1..])
  {
    var t := s[1..];
    forall i, j | 0 <= i < j < |t| ensures NotAfter(t[i], t[j]) {
      assert t[i] == s[i + 1] && t[j] == s[j + 1];
    }
  }

  lemma PrependNewestFirst(x: TimeEntry, s: seq<TimeEntry>)
    requires NewestFirst(s) && forall y :: y in s ==> NotAfter(x, y)
    ensures NewestFirst([x] + s)
  {
    var r := [x] + s;
    forall i, j | 0 <= i < j < |r| ensures NotAfter(r[i], r[j]) {
      assert r[j] == s[j - 1] && s[j - 1] in s;
      if i > 0 {
        assert r[i] == s[i - 1];
      }
    }
  }

  /** The order the database returns: dato descending, then id descending. */
  function SortNewestFirst(s: seq<TimeEntry>): (r: seq<TimeEntry>)
    ensures |r| == |s|
  {
    if s == [] then [] else InsertNewestFirst(s[0], SortNewestFirst(s[1..]))
  }

  /** The sort orders its input newest first and keeps every row. */
  lemma {:induction false} SortSortsNewestFirst(s: seq<TimeEntry>)
    ensures NewestFirst(SortNewestFirst(s))
    ensures multiset(SortNewestFirst(s)) == multiset(s)
  {
    if s != [] {
      SortSortsNewestFirst(s[1..]);
      InsertKeepsOrder(s[0], SortNewestFirst(s[1..]));
      assert s == [s[0]] + s[1..];
    }
  }

  /** What `findAllByUserSub(userSub, from, to)` returns on a table. */
  function EntriesOf(rows: seq<TimeEntry>, userSub: string, from: Option<Date>, to: Option<Date>): (r: seq<TimeEntry>)
    ensures NewestFirst(r)
    ensures multiset(r) == multiset(Select(rows, FindAllQuery(userSub, from, to)))
    ensures forall e :: e in r <==> e in rows && InRange(e, userSub, from, to)
  {
    var r := SortNewestFirst(Select(rows, FindAllQuery(userSub, from, to)));
    SortSortsNewestFirst(Select(rows, FindAllQuery(userSub, from, to)));
    assert forall e :: e in r <==> e in multiset(r);
    r
  }

  // ---------------------------------------------------------------------------
  // Hour sums.

  /** `sumOf { it.timer }`. */
  function TotalHours(s: seq<TimeEntry>): real {
    if s == [] then 0.0 else s[0].timer + TotalHours(s[1..])
  }

  /** `filter { it.timeEntryId != id }`. */
  function ExcludeId(s: seq<TimeEntry>, id: Option<int>): (r: seq<TimeEntry>)
    ensures forall e :: e in r <==> e in s && e.timeEntryId != id
  {
    if s == [] then []
    else (if s[0].timeEntryId != id then [s[0]] else []) + ExcludeId(s[1..], id)
  }

  /** The hours of `e` as counted towards (`userSub`, `dato`) with `exclude` left out. */
  function Share(e: TimeEntry, userSub: string, dato: Date, exclude: Option<int>): real {
    if e.userSub == userSub && e.dato == dato && e.timeEntryId != exclude then e.timer else 0.0
  }

  /** The hours the subject has on that date in the table, leaving out the
      row whose id is `exclude`: the reference definition of the day total. */
  function DayHours(rows: seq<TimeEntry>, userSub: string, dato: Date, exclude: Option<int>): real {
    if rows == [] then 0.0 else Share(rows[0], userSub, dato, exclude) + DayHours(rows[1..], userSub, dato, exclude)
  }

  lemma ExcludeConsHours(e: TimeEntry, s: seq<TimeEntry>, id: Option<int>)
    ensures TotalHours(ExcludeId([e] + s, id))
         == (if e.timeEntryId != id then e.timer else 0.0) + TotalHours(ExcludeId(s, id))
  {
    var r := [e] + s;
    assert r[0] == e && r[1..] == s;
    if e.timeEntryId != id {
      var x := [e] + ExcludeId(s, id);
      assert x[0] == e && x[1..] == ExcludeId(s, id);
    } else {
      assert ExcludeId(r, id) == ExcludeId(s, id);
    }
  }

  lemma {:induction false} InsertHours(e: TimeEntry, s: seq<TimeEntry>, id: Option<int>)
    ensures TotalHours(ExcludeId(InsertNewestFirst(e, s), id))
         == (if e.timeEntryId != id then e.timer else 0.0) + TotalHours(ExcludeId(s, id))
  {
    var ce := if e.timeEntryId != id then e.timer else 0.0;
    if s == [] || NotAfter(e, s[0]) {
      ExcludeConsHours(e, s, id);
    } else {
      var t := s[1..];
      InsertHours(e, t, id);
      ConsHours(s[0], InsertNewestFirst(e, t), t, id, ce);
      assert s == [s[0]] + t;
    }
  }

  lemma ConsHours(x: TimeEntry, rest: seq<TimeEntry>, t: seq<TimeEntry>, id: Option<int>, ce: real)
    requires TotalHours(ExcludeId(rest, id)) == ce + TotalHours(ExcludeId(t, id))
    ensures TotalHours(ExcludeId([x] + rest, id)) == ce + TotalHours(ExcludeId([x] + t, id))
  {
    ExcludeConsHours(x, rest, id);
    ExcludeConsHours(x, t, id);
  }

  /** Sorting does not change the hours of the rows kept by an id filter. */
  lemma {:induction false} SortHours(s: seq<TimeEntry>, id: Option<int>)
    ensures TotalHours(ExcludeId(SortNewestFirst(s), id)) == TotalHours(ExcludeId(s, id))
  {
    if s != [] {
      SortStepHours(s, id);
      SortHours(s[1..], id);
      ExcludeConsHours(s[0], s[1..], id);
      assert s == [s[0]] + s[1..];
    }
  }

  /** Sorting puts the first row somewhere in the sorted rest, which adds its
      hours, if kept, to the filtered sum. */
  lemma SortStepHours(s: seq<TimeEntry>, id: Option<int>)
    requires s != []
    ensures TotalHours(ExcludeId(SortNewestFirst(s), id))
         == (if s[0].timeEntryId != id then s[0].timer else 0.0) + TotalHours(ExcludeId(SortNewestFirst(s[1..]), id))
  {
    var t := SortNewestFirst(s[1..]);
    assert SortNewestFirst(s) == InsertNewestFirst(s[0], t);
    InsertHours(s[0], t, id);
  }

  lemma SelectDayHours(rows: seq<TimeEntry>, userSub: string, dato: Date, id: Option<int>)
    ensures TotalHours(ExcludeId(Select(rows, FindAllQuery(userSub, Some(dato), Some(dato))), id))
         == DayHours(rows, userSub, dato, id)
  {
    var q := FindAllQuery(userSub, Some(dato), Some(dato));
    forall e ensures Selects(q, e) <==> e.userSub == userSub && e.dato == dato {
      assert InRange(e, userSub, Some(dato), Some(dato)) <==> e.userSub == userSub && e.dato == dato;
    }
    DaySelectHours(rows, q, userSub, dato, id);
  }

  /** A query that selects exactly the subject's rows of one date sums, with
      an id filter, to that date's total. */
  lemma {:induction false} DaySelectHours(rows: seq<TimeEntry>, q: Query, userSub: string, dato: Date, id: Option<int>)
    requires forall e :: Selects(q, e) <==> e.userSub == userSub && e.dato == dato
    ensures TotalHours(ExcludeId(Select(rows, q), id)) == DayHours(rows, userSub, dato, id)
  {
    if rows != [] {
      DaySelectStep(rows, q, userSub, dato, id);
      DaySelectHours(rows[1..], q, userSub, dato, id);
    }
  }

  /** The first row of the table adds its share to the selected, filtered sum. */
  lemma DaySelectStep(rows: seq<TimeEntry>, q: Query, userSub: string, dato: Date, id: Option<int>)
    requires rows != []
    requires Selects(q, rows[0]) <==> rows[0].userSub == userSub && rows[0].dato == dato
    ensures TotalHours(ExcludeId(Select(rows, q), id))
         == Share(rows[0], userSub, dato, id) + TotalHours(ExcludeId(Select(rows[1..], q), id))
  {
    var head := if Selects(q, rows[0]) then [rows[0]] else [];
    var tail := Select(rows[1..], q);
    assert Select(rows, q) == head + tail;
    ExcludeAppendHours(head, tail, id);
    SelectedShare(rows[0], Selects(q, rows[0]), userSub, dato, id);
  }

  /** One row, kept by the day query or not, adds its share to the filtered sum. */
  lemma SelectedShare(x: TimeEntry, selected: bool, userSub: string, dato: Date, id: Option<int>)
    requires selected <==> x.userSub == userSub && x.dato == dato
    ensures TotalHours(ExcludeId(if selected then [x] else [], id)) == Share(x, userSub, dato, id)
  {
    if selected {
      assert ExcludeId([x], id) == (if x.timeEntryId != id then [x] else []) + ExcludeId([], id);
    }
  }

  lemma {:induction false} ExcludeAppendHours(a: seq<TimeEntry>, b: seq<TimeEntry>, id: Option<int>)
    ensures TotalHours(ExcludeId(a + b, id)) == TotalHours(ExcludeId(a, id)) + TotalHours(ExcludeId(b, id))
  {
    if a == [] {
      assert a + b == b;
    } else {
      assert (a + b)[0] == a[0] && (a + b)[1..] == a[1..] + b;
      ExcludeAppendHours(a[1..], b, id);
      TotalHoursAppend(if a[0].timeEntryId != id then [a[0]] else [], ExcludeId(a[1..] + b, id));
      TotalHoursAppend(if a[0].timeEntryId != id then [a[0]] else [], ExcludeId(a[1..], id));
    }
  }

  lemma {:induction false} TotalHoursAppend(a: seq<TimeEntry>, b: seq<TimeEntry>)
    ensures TotalHours(a + b) == TotalHours(a) + TotalHours(b)
  {
    if a == [] {
      assert a + b == b;
    } else {
      assert (a + b)[0] == a[0] && (a + b)[1..] == a[1..] + b;
      TotalHoursAppend(a[1..], b);
    }
  }

  /** The validator's day total — the subject's entries found for that single
      date, minus the row with the candidate's id, summed — is the reference
      day total over the table, whatever order the rows come back in. */
  lemma QueriedDayHours(rows: seq<TimeEntry>, userSub: string, dato: Date, id: Option<int>)
    ensures TotalHours(ExcludeId(EntriesOf(rows, userSub, Some(dato), Some(dato)), id))
         == DayHours(rows, userSub, dato, id)
  {
    SortHours(Select(rows, FindAllQuery(userSub, Some(dato), Some(dato))), id);
    SelectDayHours(rows, userSub, dato, id);
  }

  lemma {:induction false} DayHoursAppend(rows: seq<TimeEntry>, e: TimeEntry, userSub: string, dato: Date, id: Option<int>)
    ensures DayHours(rows + [e], userSub, dato, id) == DayHours(rows, userSub, dato, id) + Share(e, userSub, dato, id)
  {
    if rows == [] {
      assert rows + [e] == [e];
    } else {
      assert (rows + [e])[0] == rows[0] && (rows + [e])[1..] == rows[1..] + [e];
      DayHoursAppend(rows[1..], e, userSub, dato, id);
    }
  }

  /** Leaving out an id that no row carries changes no day total. */
  lemma {:induction false} DayHoursAbsentId(rows: seq<TimeEntry>, userSub: string, dato: Date, id: Option<int>)
    requires forall e :: e in rows ==> e.timeEntryId.Some? && e.timeEntryId != id
    ensures DayHours(rows, userSub, dato, id) == DayHours(rows, userSub, dato, None)
  {
    if rows != [] {
      assert rows[0] in rows;
      assert forall e :: e in rows[1..] ==> e in rows;
      DayHoursAbsentId(rows[1..], userSub, dato, id);
    }
  }

  lemma {:induction false} DayHoursSplit(rows: seq<TimeEntry>, k: int, userSub: string, dato: Date, id: Option<int>)
    requires 0 <= k < |rows|
    ensures DayHours(rows, userSub, dato, id)
         == DayHours(rows[..k], userSub, dato, id) + Share(rows[k], userSub, dato, id) + DayHours(rows[k+1..], userSub, dato, id)
  {
    if k == 0 {
      assert rows[..0] == [];
    } else {
      DayHoursSplit(rows[1..], k - 1, userSub, dato, id);
      assert rows[1..][..k-1] == rows[1..k] && rows[1..][k..] == rows[k+1..] && rows[1..][k-1] == rows[k];
      assert rows[..k][0] == rows[0] && rows[..k][1..] == rows[1..k];
    }
  }

  /** Replacing the row with id `id` by `e` (same id) changes that subject's
      day total from "everything but `id`" to that plus `e`'s hours. */
  lemma ReplaceDayHours(rows: seq<TimeEntry>, k: int, e: TimeEntry, userSub: string, dato: Date)
    requires UniqueIds(rows) && 0 <= k < |rows| && e.timeEntryId == rows[k].timeEntryId
    ensures DayHours(rows[k := e], userSub, dato, None)
         == DayHours(rows, userSub, dato, rows[k].timeEntryId) + Share(e, userSub, dato, None)
  {
    var id := rows[k].timeEntryId;
    var rows' := rows[k := e];
    DayHoursSplit(rows', k, userSub, dato, None);
    DayHoursSplit(rows, k, userSub, dato, id);
    assert rows'[..k] == rows[..k] && rows'[k+1..] == rows[k+1..];
    forall e | e in rows[..k] ensures e.timeEntryId.Some? && e.timeEntryId != id {
      var j :| 0 <= j < k && rows[..k][j] == e;
      assert rows[j] == e && e in rows;
    }
    forall e | e in rows[k+1..] ensures e.timeEntryId.Some? && e.timeEntryId != id {
      var j :| 0 <= j < |rows| - k - 1 && rows[k+1..][j] == e;
      assert rows[k + 1 + j] == e && e in rows;
    }
    DayHoursAbsentId(rows[..k], userSub, dato, id);
    DayHoursAbsentId(rows[k+1..], userSub, dato, id);
  }

  /** Removing rows whose hours are not negative never raises a day total. */
  lemma {:induction false} DayHoursRemove(rows: seq<TimeEntry>, id: Option<int>, owner: string, userSub: string, dato: Date)
    requires forall i :: 0 <= i < |rows| ==> rows[i].timer >= 0.0
    ensures DayHours(Remove(rows, id, owner), userSub, dato, None) <= DayHours(rows, userSub, dato, None)
  {
    if rows != [] {
      var t := rows[1..];
      assert forall i :: 0 <= i < |t| ==> t[i].timer >= 0.0 by {
        forall i | 0 <= i < |t| ensures t[i].timer >= 0.0 {
          assert t[i] == rows[i + 1];
        }
      }
      DayHoursRemove(t, id, owner, userSub, dato);
      var tail := Remove(t, id, owner);
      var share := Share(rows[0], userSub, dato, None);
      assert share >= 0.0 by {
        assert rows[0].timer >= 0.0;
      }
      assert DayHours(rows, userSub, dato, None) == share + DayHours(t, userSub, dato, None);
      if Matches(rows[0], id, owner) {
        assert Remove(rows, id, owner) == tail;
      } else {
        var r := [rows[0]] + tail;
        assert Remove(rows, id, owner) == r;
        assert r[0] == rows[0] && r[1..] == tail;
        assert DayHours(r, userSub, dato, None) == share + DayHours(tail, userSub, dato, None);
      }
    }
  }

  // ---------------------------------------------------------------------------
  // The statements that change the table.

  /** `UPDATE time_entries SET timer = ?, kommentar = ?, sist_endret = ?,
      version = version + 1 WHERE time_entry_id = ? AND user_sub = ?` on one row. */
  function Updated(row: TimeEntry, entry: TimeEntry, now: Timestamp): TimeEntry {
    row.(timer := entry.timer, kommentar := entry.kommentar, sistEndret := now, version := row.version + 1)
  }

  /** The UPDATE applied to every row it matches. */
  function UpdateRows(rows: seq<TimeEntry>, entry: TimeEntry, now: Timestamp): (r: seq<TimeEntry>)
    ensures |r| == |rows|
    ensures forall i :: 0 <= i < |rows| && Matches(rows[i], entry.timeEntryId, entry.userSub) ==>
      && r[i].timer == entry.timer && r[i].kommentar == entry.kommentar
      && r[i].sistEndret == now && r[i].version == rows[i].version + 1
      && r[i].timeEntryId == rows[i].timeEntryId && r[i].userSub == rows[i].userSub
      && r[i].prosjektId == rows[i].prosjektId && r[i].dato == rows[i].dato
      && r[i].opprettetDato == rows[i].opprettetDato
    ensures forall i :: 0 <= i < |rows| && !Matches(rows[i], entry.timeEntryId, entry.userSub) ==> r[i] == rows[i]
  {
    seq(|rows|, i requires 0 <= i < |rows| =>
      if Matches(rows[i], entry.timeEntryId, entry.userSub) then Updated(rows[i], entry, now) else rows[i])
  }

  /** `DELETE FROM time_entries WHERE time_entry_id = ? AND user_sub = ?`. */
  function Remove(rows: seq<TimeEntry>, id: Option<int>, userSub: string): (r: seq<TimeEntry>)
    ensures |r| <= |rows|
    ensures forall i :: 0 <= i < |r| ==> !Matches(r[i], id, userSub)
    ensures forall e :: e in r <==> e in rows && !Matches(e, id, userSub)
  {
    if rows == [] then []
    else (if Matches(rows[0], id, userSub) then [] else [rows[0]]) + Remove(rows[1..], id, userSub)
  }

  /** The DELETE keeps exactly the rows it does not match, each no more often
      than before. */
  lemma {:induction false} RemoveContents(rows: seq<TimeEntry>, id: Option<int>, userSub: string)
    ensures forall e :: e in Remove(rows, id, userSub) <==> e in rows && !Matches(e, id, userSub)
    ensures multiset(Remove(rows, id, userSub)) <= multiset(rows)
  {
    if rows != [] {
      RemoveContents(rows[1..], id, userSub);
      assert rows == [rows[0]] + rows[1..];
    }
  }

  predicate AnyMatches(rows: seq<TimeEntry>, id: Option<int>, userSub: string) {
    exists i :: 0 <= i < |rows| && Matches(rows[i], id, userSub)
  }

  /** With unique ids the UPDATE touches exactly the one row with that id:
      only its hours, comment, change time and version change. */
  lemma UpdateOneRow(rows: seq<TimeEntry>, k: int, entry: TimeEntry, now: Timestamp)
    requires UniqueIds(rows) && 0 <= k < |rows| && Matches(rows[k], entry.timeEntryId, entry.userSub)
    ensures UpdateRows(rows, entry, now) == rows[k := Updated(rows[k], entry, now)]
  {
  }

  /** The UPDATE keeps every row's id, owner, project and date. */
  lemma UpdateKeepsKeys(rows: seq<TimeEntry>, entry: TimeEntry, now: Timestamp)
    ensures var r := UpdateRows(rows, entry, now);
      forall i :: 0 <= i < |rows| ==>
        && r[i].timeEntryId == rows[i].timeEntryId && r[i].userSub == rows[i].userSub
        && r[i].prosjektId == rows[i].prosjektId && r[i].dato == rows[i].dato
  {
  }

  lemma UpdateKeepsUnique(rows: seq<TimeEntry>, entry: TimeEntry, now: Timestamp, bound: int)
    requires UniqueIds(rows) && forall e :: e in rows ==> 1 <= IdValue(e) < bound
    ensures var r := UpdateRows(rows, entry, now);
      UniqueIds(r) && forall e :: e in r ==> 1 <= IdValue(e) < bound
  {
    var r := UpdateRows(rows, entry, now);
    forall e | e in r ensures e.timeEntryId.Some? && 1 <= IdValue(e) < bound {
      var i :| 0 <= i < |r| && r[i] == e;
      assert rows[i] in rows;
    }
  }

  /** Deleting keeps every other row, in order, and drops the matching one. */
  lemma {:induction false} RemoveOneRow(rows: seq<TimeEntry>, k: int, userSub: string)
    requires UniqueIds(rows) && 0 <= k < |rows| && rows[k].userSub == userSub
    ensures Remove(rows, rows[k].timeEntryId, userSub) == rows[..k] + rows[k+1..]
  {
    if k == 0 {
      RemoveHeadRow(rows, userSub);
    } else {
      var t := rows[1..];
      assert t[k-1] == rows[k];
      UniqueTail(rows);
      RemoveOneRow(t, k - 1, userSub);
      assert t[..k-1] == rows[1..k] && t[k..] == rows[k+1..];
      RemoveOneRowStep(rows, k, userSub);
    }
  }

  /** The first row's own id matches no later row, so only it is dropped. */
  lemma RemoveHeadRow(rows: seq<TimeEntry>, userSub: string)
    requires UniqueIds(rows) && rows != [] && rows[0].userSub == userSub
    ensures Remove(rows, rows[0].timeEntryId, userSub) == rows[1..]
  {
    var id := rows[0].timeEntryId;
    assert rows[0] in rows;
    forall e | e in rows[1..] ensures e.timeEntryId != id {
      var j :| 0 <= j < |rows| - 1 && rows[1..][j] == e;
      assert rows[j + 1] == e;
    }
    RemoveNone(rows[1..], id, userSub);
  }

  /** A later row's id does not match the first row, which is kept in front. */
  lemma RemoveOneRowStep(rows: seq<TimeEntry>, k: int, userSub: string)
    requires UniqueIds(rows) && 0 < k < |rows| && rows[k].userSub == userSub
    requires Remove(rows[1..], rows[k].timeEntryId, userSub) == rows[1..k] + rows[k+1..]
    ensures Remove(rows, rows[k].timeEntryId, userSub) == rows[..k] + rows[k+1..]
  {
    var id := rows[k].timeEntryId;
    assert rows[k] in rows;
    RemoveKeepsHead(rows, id, userSub);
    assert rows[..k] == [rows[0]] + rows[1..k];
  }

  /** A row with an id above every stored one can be appended. */
  lemma AppendUnique(rows: seq<TimeEntry>, e: TimeEntry, bound: int)
    requires UniqueIds(rows) && (forall x :: x in rows ==> 1 <= IdValue(x) < bound)
    requires e.timeEntryId == Some(bound) && bound >= 1
    ensures UniqueIds(rows + [e])
    ensures forall x :: x in rows + [e] ==> 1 <= IdValue(x) < bound + 1
  {
    var r := rows + [e];
    forall x | x in r ensures x.timeEntryId.Some? && 1 <= IdValue(x) < bound + 1 {
      if x != e {
        assert x in rows;
      }
    }
    forall i, j | 0 <= i < j < |r| ensures r[i].timeEntryId != r[j].timeEntryId {
      assert r[i] == rows[i] && rows[i] in rows;
      if j < |rows| {
        assert r[j] == rows[j];
      }
    }
  }

  lemma UniqueTail(rows: seq<TimeEntry>)
    requires UniqueIds(rows) && rows != []
    ensures UniqueIds(rows[1..])
  {
    var t := rows[1..];
    forall e | e in t ensures e.timeEntryId.Some? {
      assert e in rows;
    }
    forall i, j | 0 <= i < j < |t| ensures t[i].timeEntryId != t[j].timeEntryId {
      assert t[i] == rows[i + 1] && t[j] == rows[j + 1];
    }
  }

  lemma RemoveKeepsHead(rows: seq<TimeEntry>, id: Option<int>, userSub: string)
    requires rows != [] && !Matches(rows[0], id, userSub)
    ensures Remove(rows, id, userSub) == [rows[0]] + Remove(rows[1..], id, userSub)
  {
  }

  lemma {:induction false} RemoveNone(rows: seq<TimeEntry>, id: Option<int>, userSub: string)
    requires forall e :: e in rows ==> e.timeEntryId != id
    ensures Remove(rows, id, userSub) == rows
  {
    if rows != [] {
      assert rows[0] in rows;
      assert forall e :: e in rows[1..] ==> e in rows;
      RemoveNone(rows[1..], id, userSub);
      RemoveKeepsHead(rows, id, userSub);
      assert rows == [rows[0]] + rows[1..];
    }
  }

  /** The repository over an in-memory `time_entries` table. `nextId` stands
      for the identity column: every stored id is below it. */
  class TimeEntryRepository {
    var rows: seq<TimeEntry>
    var nextId: int

    predicate Valid()
      reads this
    {
      && nextId >= 1
      && UniqueIds(rows)
      && forall e :: e in rows ==> 1 <= IdValue(e) < nextId
    }

    constructor()
      ensures Valid() && rows == []
    {
      rows := [];
      nextId := 1;
    }

    /** `save`: INSERT the entry's fields under a fresh generated id and
        return the entry carrying that id. */
    method Save(entry: TimeEntry) returns (saved: TimeEntry)
      requires Valid()
      modifies this
      ensures Valid()
      ensures saved == entry.(timeEntryId := Some(old(nextId)))
      ensures rows == old(rows) + [saved]
      ensures forall e :: e in old(rows) ==> e.timeEntryId != saved.timeEntryId
    {
      saved := entry.(timeEntryId := Some(nextId));
      AppendUnique(rows, saved, nextId);
      rows := rows + [saved];
      nextId := nextId + 1;
    }

    /** `findAllByUserSub`: build the WHERE clause and its parameters, one
        optional bound at a time, then run the query. */
    method FindAllByUserSub(userSub: string, from: Option<Date>, to: Option<Date>) returns (r: seq<TimeEntry>)
      ensures r == EntriesOf(rows, userSub, from, to)
      ensures NewestFirst(r)
      ensures forall e :: e in r <==> e in rows && InRange(e, userSub, from, to)
    {
      var conditions := [UserSubEquals];
      var params := [SubParam(userSub)];
      if from.Some? {
        conditions := conditions + [DatoAtLeast];
        params := params + [DateParam(from.value)];
      }
      if to.Some? {
        conditions := conditions + [DatoAtMost];
        params := params + [DateParam(to.value)];
      }
      var q := Query(conditions, params);
      assert q == FindAllQuery(userSub, from, to);
      r := SortNewestFirst(Select(rows, q));
    }

    /** `update`: the UPDATE matched on the entry's id and owner, with the
        repository's own `LocalDateTime.now()`, `now`; true iff a row matched. */
    method Update(entry: TimeEntry, now: Timestamp) returns (updated: bool)
      requires Valid()
      modifies this
      ensures Valid()
      ensures rows == UpdateRows(old(rows), entry, now) && nextId == old(nextId)
      ensures updated <==> AnyMatches(old(rows), entry.timeEntryId, entry.userSub)
    {
      updated := AnyMatches(rows, entry.timeEntryId, entry.userSub);
      UpdateKeepsUnique(rows, entry, now, nextId);
      rows := UpdateRows(rows, entry, now);
    }

    /** `delete`: remove the row with this id and owner; true iff one went. */
    method Delete(id: int, userSub: string) returns (deleted: bool)
      requires Valid()
      modifies this
      ensures Valid()
      ensures rows == Remove(old(rows), Some(id), userSub) && nextId == old(nextId)
      ensures deleted <==> AnyMatches(old(rows), Some(id), userSub)
    {
      deleted := AnyMatches(rows, Some(id), userSub);
      RemoveKeepsUnique(rows, Some(id), userSub, nextId);
      rows := Remove(rows, Some(id), userSub);
    }
  }

  lemma {:induction false} RemoveKeepsUnique(rows: seq<TimeEntry>, id: Option<int>, userSub: string, bound: int)
    requires UniqueIds(rows) && forall e :: e in rows ==> 1 <= IdValue(e) < bound
    ensures var r := Remove(rows, id, userSub);
      UniqueIds(r) && forall e :: e in r ==> 1 <= IdValue(e) < bound
  {
    if rows != [] {
      var t := rows[1..];
      UniqueTail(rows);
      assert forall e :: e in t ==> e in rows;
      RemoveKeepsUnique(t, id, userSub, bound);
      var tail := Remove(t, id, userSub);
      RemoveContents(t, id, userSub);
      if !Matches(rows[0], id, userSub) {
        assert rows[0] in rows;
        HeadIdFresh(rows, tail);
        PrependUnique(rows[0], tail);
        assert Remove(rows, id, userSub) == [rows[0]] + tail;
      } else {
        assert Remove(rows, id, userSub) == tail;
      }
    }
  }

  /** No row drawn from the rest of a table with unique ids carries the
      first row's id. */
  lemma HeadIdFresh(rows: seq<TimeEntry>, s: seq<TimeEntry>)
    requires UniqueIds(rows) && rows != [] && forall x :: x in s ==> x in rows[1..]
    ensures forall x :: x in s ==> x.timeEntryId != rows[0].timeEntryId
  {
    forall x | x in s ensures x.timeEntryId != rows[0].timeEntryId {
      var j :| 0 <= j < |rows| - 1 && rows[1..][j] == x;
      assert rows[j + 1] == x;
    }
  }
}
