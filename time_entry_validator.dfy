/** `TimeEntryBusinessValidator.validateCreateOrUpdate`: a chain of guards
    over one candidate entry, reading the projects and time_entries tables,
    where the first failing guard throws. Also the invariant these guards
    keep on the two tables, and the lemmas showing that every write the
    facades make keeps it. */
module TimeEntryValidator {
  import opened Wrappers
  import opened Jvm
  import opened TimeEntries
  import P = Projects

  const MsgTimerPositive: string := "Timer må være positiv verdi"
  const MsgWholeOrHalf: string := "Kun hele eller halve timer er tillatt"
  const MsgMaxPerEntry: string := "Maks 24 timer per registrering"
  const MsgProjectNotFound: string := "Prosjekt ikke funnet eller ikke aktiv"
  const MsgMaxPerDay: string := "Kan ikke registrere mer enn 24 timer på samme dag"

  /** `(timer * 2) % 1.0 == 0.0`: twice the hours is a whole number. */
  predicate WholeOrHalf(timer: real) {
    (timer * 2.0).Floor as real == timer * 2.0
  }

  /** The three guards on the hours alone. */
  predicate HoursAllowed(timer: real) {
    timer > 0.0 && WholeOrHalf(timer) && timer <= 24.0
  }

  /** `require(cond) { message }`. */
  function Require(cond: bool, message: string): (r: Outcome<Exception>)
    ensures r.Pass? <==> cond
    ensures r.Fail? ==> r.error == IllegalArgument(Some(message))
  {
    if cond then Pass else Fail(IllegalArgumentOf(message))
  }

  /** `findAllByUserSub(userSub, dato, dato).filter { it.timeEntryId !=
      entry.timeEntryId }.sumOf { it.timer } + entry.timer`. */
  function TotalForDay(entries: seq<TimeEntry>, entry: TimeEntry): real {
    TotalHours(ExcludeId(EntriesOf(entries, entry.userSub, Some(entry.dato), Some(entry.dato)), entry.timeEntryId))
      + entry.timer
  }

  /** `validateCreateOrUpdate(entry)` against the current tables. */
  function ValidateCreateOrUpdate(projects: seq<P.Project>, entries: seq<TimeEntry>, entry: TimeEntry): (r: Outcome<Exception>)
    ensures r.Pass? <==>
      && HoursAllowed(entry.timer)
      && P.ActiveProjectOf(projects, entry.prosjektId, entry.userSub)
      && DayHours(entries, entry.userSub, entry.dato, entry.timeEntryId) + entry.timer <= 24.0
    ensures r.Fail? ==> r.error.IllegalArgument?
  {
    var r1 := Require(entry.timer > 0.0, MsgTimerPositive);
    if r1.Fail? then r1 else
    var r2 := Require(WholeOrHalf(entry.timer), MsgWholeOrHalf);
    if r2.Fail? then r2 else
    var r3 := Require(entry.timer <= 24.0, MsgMaxPerEntry);
    if r3.Fail? then r3 else
    match P.FindByIdAndUserSub(projects, entry.prosjektId, entry.userSub)
    case None => Fail(IllegalArgumentOf(MsgProjectNotFound))
    case Some(_) =>
      QueriedDayHours(entries, entry.userSub, entry.dato, entry.timeEntryId);
      Require(TotalForDay(entries, entry) <= 24.0, MsgMaxPerDay)
  }

  /** The first failing guard decides the message. */
  lemma FirstFailureWins(projects: seq<P.Project>, entries: seq<TimeEntry>, entry: TimeEntry)
    ensures var r := ValidateCreateOrUpdate(projects, entries, entry);
      && (entry.timer <= 0.0 ==> r == Fail(IllegalArgument(Some(MsgTimerPositive))))
      && (entry.timer > 0.0 && !WholeOrHalf(entry.timer) ==> r == Fail(IllegalArgument(Some(MsgWholeOrHalf))))
      && (entry.timer > 24.0 && WholeOrHalf(entry.timer) ==> r == Fail(IllegalArgument(Some(MsgMaxPerEntry))))
      && (HoursAllowed(entry.timer) && !P.ActiveProjectOf(projects, entry.prosjektId, entry.userSub)
          ==> r == Fail(IllegalArgument(Some(MsgProjectNotFound))))
      && (HoursAllowed(entry.timer) && P.ActiveProjectOf(projects, entry.prosjektId, entry.userSub)
          && DayHours(entries, entry.userSub, entry.dato, entry.timeEntryId) + entry.timer > 24.0
          ==> r == Fail(IllegalArgument(Some(MsgMaxPerDay))))
  {
    QueriedDayHours(entries, entry.userSub, entry.dato, entry.timeEntryId);
  }

  /** The hour guards run before any lookup: their verdict does not depend
      on what the tables hold. */
  lemma HourGuardsIgnoreTables(projects1: seq<P.Project>, entries1: seq<TimeEntry>,
                               projects2: seq<P.Project>, entries2: seq<TimeEntry>, entry: TimeEntry)
    requires !HoursAllowed(entry.timer)
    ensures ValidateCreateOrUpdate(projects1, entries1, entry) == ValidateCreateOrUpdate(projects2, entries2, entry)
  {
  }

  /** Half hours pass the step guard; 1.3 hours do not. */
  lemma StepExamples()
    ensures WholeOrHalf(7.5) && WholeOrHalf(24.0) && !WholeOrHalf(1.3)
  {
    assert (1.3 * 2.0).Floor == 2;
  }

  /** With 23 hours already registered that day, 1 more hour is accepted and
      2 more are refused. */
  lemma DayLimitExample(projects: seq<P.Project>, entries: seq<TimeEntry>, entry: TimeEntry)
    requires P.ActiveProjectOf(projects, entry.prosjektId, entry.userSub)
    requires DayHours(entries, entry.userSub, entry.dato, entry.timeEntryId) == 23.0
    ensures ValidateCreateOrUpdate(projects, entries, entry.(timer := 1.0)) == Pass
    ensures ValidateCreateOrUpdate(projects, entries, entry.(timer := 2.0)) == Fail(IllegalArgument(Some(MsgMaxPerDay)))
  {
    assert WholeOrHalf(1.0) && WholeOrHalf(2.0);
    FirstFailureWins(projects, entries, entry.(timer := 2.0));
  }

  /** Re-validating a stored entry under its own id counts the other rows of
      that day and the new hours, never its old hours. */
  lemma RevalidationExcludesOldHours(projects: seq<P.Project>, entries: seq<TimeEntry>, k: int, timer: real)
    requires UniqueIds(entries) && 0 <= k < |entries|
    ensures var old_ := entries[k];
      DayHours(entries, old_.userSub, old_.dato, old_.timeEntryId) + old_.timer
        == DayHours(entries, old_.userSub, old_.dato, None)
  {
    var e := entries[k];
    assert e in entries;
    DayHoursSplit(entries, k, e.userSub, e.dato, e.timeEntryId);
    DayHoursSplit(entries, k, e.userSub, e.dato, None);
    PartsWithoutId(entries, k);
    DayHoursAbsentId(entries[..k], e.userSub, e.dato, e.timeEntryId);
    DayHoursAbsentId(entries[k+1..], e.userSub, e.dato, e.timeEntryId);
  }

  lemma PartsWithoutId(rows: seq<TimeEntry>, k: int)
    requires UniqueIds(rows) && 0 <= k < |rows|
    ensures forall e :: e in rows[..k] ==> e.timeEntryId.Some? && e.timeEntryId != rows[k].timeEntryId
    ensures forall e :: e in rows[k+1..] ==> e.timeEntryId.Some? && e.timeEntryId != rows[k].timeEntryId
  {
    forall e | e in rows[..k] ensures e.timeEntryId.Some? && e.timeEntryId != rows[k].timeEntryId {
      var j :| 0 <= j < k && rows[..k][j] == e;
      assert rows[j] == e && e in rows;
    }
    forall e | e in rows[k+1..] ensures e.timeEntryId.Some? && e.timeEntryId != rows[k].timeEntryId {
      var j :| 0 <= j < |rows| - k - 1 && rows[k+1..][j] == e;
      assert rows[k + 1 + j] == e && e in rows;
    }
  }

  // ---------------------------------------------------------------------------
  // The invariant the guards keep on the two tables.

  /** Every stored entry has allowed hours and an active project of its own
      subject, and no subject has more than 24 hours on any date. */
  predicate Consistent(projects: seq<P.Project>, entries: seq<TimeEntry>) {
    forall e :: e in entries ==>
      && HoursAllowed(e.timer)
      && P.ActiveProjectOf(projects, e.prosjektId, e.userSub)
      && DayHours(entries, e.userSub, e.dato, None) <= 24.0
  }

  lemma {:induction false} DayHoursNonNegative(rows: seq<TimeEntry>, userSub: string, dato: Date, id: Option<int>)
    requires forall e :: e in rows ==> e.timer >= 0.0
    ensures DayHours(rows, userSub, dato, id) >= 0.0
  {
    if rows != [] {
      assert rows[0] in rows;
      assert forall e :: e in rows[1..] ==> e in rows;
      DayHoursNonNegative(rows[1..], userSub, dato, id);
    }
  }

  /** Leaving a row out of a day total never raises it. */
  lemma {:induction false} ExcludingLowers(rows: seq<TimeEntry>, userSub: string, dato: Date, id: Option<int>)
    requires forall e :: e in rows ==> e.timer >= 0.0 && e.timeEntryId.Some?
    ensures DayHours(rows, userSub, dato, id) <= DayHours(rows, userSub, dato, None)
  {
    if rows != [] {
      assert rows[0] in rows;
      assert forall e :: e in rows[1..] ==> e in rows;
      ExcludingLowers(rows[1..], userSub, dato, id);
    }
  }

  /** Create: appending a validated entry under a fresh id keeps the tables
      consistent. */
  lemma InsertKeepsConsistent(projects: seq<P.Project>, entries: seq<TimeEntry>, entry: TimeEntry, id: int)
    requires Consistent(projects, entries)
    requires entry.timeEntryId.None? && ValidateCreateOrUpdate(projects, entries, entry).Pass?
    requires forall e :: e in entries ==> e.timeEntryId != Some(id)
    ensures Consistent(projects, entries + [entry.(timeEntryId := Some(id))])
  {
    var saved := entry.(timeEntryId := Some(id));
    var rows := entries + [saved];
    forall e | e in rows
      ensures HoursAllowed(e.timer) && P.ActiveProjectOf(projects, e.prosjektId, e.userSub)
      ensures DayHours(rows, e.userSub, e.dato, None) <= 24.0
    {
      DayHoursAppend(entries, saved, e.userSub, e.dato, None);
      if e.userSub == entry.userSub && e.dato == entry.dato {
        assert DayHours(rows, e.userSub, e.dato, None) == DayHours(entries, e.userSub, e.dato, None) + entry.timer;
      } else {
        assert e in entries;
      }
    }
  }

  /** Update: replacing the stored row `k` by the repository's UPDATE of a
      validated entry with the same id, owner, project and date keeps the
      tables consistent. */
  lemma UpdateKeepsConsistent(projects: seq<P.Project>, entries: seq<TimeEntry>, k: int, entry: TimeEntry, now: Timestamp)
    requires Consistent(projects, entries) && UniqueIds(entries) && 0 <= k < |entries|
    requires entry.timeEntryId == entries[k].timeEntryId && entry.userSub == entries[k].userSub
    requires entry.dato == entries[k].dato && entry.prosjektId == entries[k].prosjektId
    requires ValidateCreateOrUpdate(projects, entries, entry).Pass?
    ensures Consistent(projects, entries[k := Updated(entries[k], entry, now)])
  {
    var stored := Updated(entries[k], entry, now);
    var rows := entries[k := stored];
    assert forall e :: e in entries ==> e.timer >= 0.0 && e.timeEntryId.Some?;
    forall e | e in rows
      ensures HoursAllowed(e.timer) && P.ActiveProjectOf(projects, e.prosjektId, e.userSub)
      ensures DayHours(rows, e.userSub, e.dato, None) <= 24.0
    {
      var i :| 0 <= i < |rows| && rows[i] == e;
      if i != k {
        assert e == entries[i] && e in entries;
      }
      ReplaceDayHours(entries, k, stored, e.userSub, e.dato);
      ExcludingLowers(entries, e.userSub, e.dato, entries[k].timeEntryId);
      if !(e.userSub == entry.userSub && e.dato == entry.dato) {
        assert e == entries[i] && e in entries;
      }
    }
  }

  /** Delete: removing rows keeps the tables consistent. */
  lemma RemoveKeepsConsistent(projects: seq<P.Project>, entries: seq<TimeEntry>, id: Option<int>, userSub: string)
    requires Consistent(projects, entries)
    ensures Consistent(projects, Remove(entries, id, userSub))
  {
    var rows := Remove(entries, id, userSub);
    RemoveContents(entries, id, userSub);
    assert forall i :: 0 <= i < |entries| ==> entries[i].timer >= 0.0 by {
      forall i | 0 <= i < |entries| ensures entries[i].timer >= 0.0 {
        assert entries[i] in entries;
      }
    }
    forall e | e in rows ensures DayHours(rows, e.userSub, e.dato, None) <= 24.0 {
      DayHoursRemove(entries, id, userSub, e.userSub, e.dato);
    }
  }

  /** Projects: the invariant only asks for active projects, so a change
      that keeps every (id, owner) that was active active keeps it. */
  lemma ProjectsChangeKeepsConsistent(projects: seq<P.Project>, projects': seq<P.Project>, entries: seq<TimeEntry>)
    requires Consistent(projects, entries)
    requires forall e :: e in entries ==> P.ActiveProjectOf(projects', e.prosjektId, e.userSub)
    ensures Consistent(projects', entries)
  {
  }

  /** Creating a project keeps every active project active. */
  lemma AppendKeepsActive(projects: seq<P.Project>, p: P.Project, id: int, userSub: string)
    requires P.ActiveProjectOf(projects, id, userSub)
    ensures P.ActiveProjectOf(projects + [p], id, userSub)
  {
    var q :| q in projects && P.Owns(q, id, userSub) && q.aktiv;
    assert q in projects + [p];
  }

  /** Creating a project keeps the tables consistent. */
  lemma AppendProjectKeepsConsistent(projects: seq<P.Project>, entries: seq<TimeEntry>, p: P.Project)
    requires Consistent(projects, entries)
    ensures Consistent(projects + [p], entries)
  {
    forall e | e in entries ensures P.ActiveProjectOf(projects + [p], e.prosjektId, e.userSub) {
      AppendKeepsActive(projects, p, e.prosjektId, e.userSub);
    }
  }

  /** Renaming a project keeps the tables consistent. */
  lemma UpdateProjectKeepsConsistent(projects: seq<P.Project>, entries: seq<TimeEntry>, project: P.Project)
    requires Consistent(projects, entries)
    ensures Consistent(P.UpdateRows(projects, project), entries)
  {
    forall e | e in entries ensures P.ActiveProjectOf(P.UpdateRows(projects, project), e.prosjektId, e.userSub) {
      UpdateKeepsActive(projects, project, e.prosjektId, e.userSub);
    }
  }

  /** Updating a project's name and description keeps every active project active. */
  lemma UpdateKeepsActive(projects: seq<P.Project>, project: P.Project, id: int, userSub: string)
    requires P.ActiveProjectOf(projects, id, userSub)
    ensures P.ActiveProjectOf(P.UpdateRows(projects, project), id, userSub)
  {
    var q :| q in projects && P.Owns(q, id, userSub) && q.aktiv;
    var i :| 0 <= i < |projects| && projects[i] == q;
    assert P.UpdateRows(projects, project)[i] in P.UpdateRows(projects, project);
  }

  /** Soft-deleting a project no entry references keeps the tables consistent. */
  lemma SoftDeleteKeepsConsistent(projects: seq<P.Project>, entries: seq<TimeEntry>, projectId: int, userSub: string, now: Timestamp)
    requires Consistent(projects, entries)
    requires !P.ExistsWithTimeregistrering(entries, projectId)
    ensures Consistent(P.SoftDeleteRows(projects, projectId, userSub, now), entries)
  {
    forall e | e in entries
      ensures P.ActiveProjectOf(P.SoftDeleteRows(projects, projectId, userSub, now), e.prosjektId, e.userSub)
    {
      P.SoftDeleteOnlyThatProject(projects, projectId, userSub, now, e.prosjektId, e.userSub);
    }
  }

  /** The two repositories the facades share: each valid, the project
      repository's view of `time_entries` is the time-entry repository, and
      the tables are consistent. */
  predicate StoresValid(entries: TimeEntryRepository, projects: P.ProjectRepository)
    reads entries, projects
  {
    && entries.Valid() && projects.Valid()
    && projects.timeEntries == entries
    && Consistent(projects.rows, entries.rows)
  }
}
