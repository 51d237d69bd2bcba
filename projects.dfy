/** The `projects` table and its repository (feature/project): the entity,
    the active-project lookups, paging, the count, and the statements that
    change a project row. */
module Projects {
  import opened Wrappers
  import opened Jvm
  import TimeEntries

  /** A project. `aktiv` is the `aktiv = 1` column; a soft-deleted project
      keeps its row with `aktiv` false. */
  datatype Project = Project(
    projectId: int,
    userSub: string,
    navn: string,
    beskrivelse: Option<string>,
    aktiv: bool,
    opprettetDato: Timestamp,
    endretDato: Timestamp)

  /** `WHERE project_id = ? AND user_sub = ?`. */
  predicate Owns(p: Project, projectId: int, userSub: string) {
    p.projectId == projectId && p.userSub == userSub
  }

  /** The subject has an active project with this id. */
  predicate ActiveProjectOf(rows: seq<Project>, projectId: int, userSub: string) {
    exists p :: p in rows && Owns(p, projectId, userSub) && p.aktiv
  }

  /** `findByIdAndUserSub`: `... AND aktiv = 1`, first row. */
  function FindByIdAndUserSub(rows: seq<Project>, projectId: int, userSub: string): (r: Option<Project>)
    ensures r.Some? ==> r.value in rows && Owns(r.value, projectId, userSub) && r.value.aktiv
    ensures r.None? <==> !ActiveProjectOf(rows, projectId, userSub)
  {
    if rows == [] then None
    else if Owns(rows[0], projectId, userSub) && rows[0].aktiv then Some(rows[0])
    else
      assert forall p :: p in rows ==> p == rows[0] || p in rows[1..];
      FindByIdAndUserSub(rows[1..], projectId, userSub)
  }

  /** `WHERE user_sub = ? AND aktiv = 1`, in table order. */
  function ActiveOf(rows: seq<Project>, userSub: string): (r: seq<Project>)
    ensures forall p :: p in r <==> p in rows && p.userSub == userSub && p.aktiv
    ensures |r| <= |rows|
  {
    if rows == [] then []
    else
      assert forall p :: p in rows ==> p == rows[0] || p in rows[1..];
      (if rows[0].userSub == userSub && rows[0].aktiv then [rows[0]] else []) + ActiveOf(rows[1..], userSub)
  }

  /** `countByUserSub`: `SELECT COUNT(*) ... WHERE user_sub = ? AND aktiv = 1`. */
  function CountByUserSub(rows: seq<Project>, userSub: string): (n: nat)
    ensures n <= |rows|
    ensures n == 0 <==> forall p :: p in rows ==> !(p.userSub == userSub && p.aktiv)
  {
    if rows == [] then 0
    else
      assert forall p :: p in rows ==> p == rows[0] || p in rows[1..];
      (if rows[0].userSub == userSub && rows[0].aktiv then 1 else 0) + CountByUserSub(rows[1..], userSub)
  }

  /** The count is the number of rows the active-project query returns. */
  lemma {:induction false} CountIsActiveRows(rows: seq<Project>, userSub: string)
    ensures CountByUserSub(rows, userSub) == |ActiveOf(rows, userSub)|
  {
    if rows != [] {
      CountIsActiveRows(rows[1..], userSub);
    }
  }

  /** Kotlin's `(page - 1) * pageSize` on `Int`: both steps wrap at 32 bits,
      which is the exact product wrapped once. */
  function PageOffset(page: Int32, pageSize: Int32): (r: Int32)
    ensures r == Wrap32((page - 1) * pageSize)
  {
    Wrap32MulCongruent(pageSize, page - 1, Wrap32(page - 1));
    Wrap32(Wrap32(page - 1) * pageSize)
  }

  /** `OFFSET ? ROWS FETCH NEXT ? ROWS ONLY`; the database reads a negative
      offset or row count as 0. */
  function OffsetFetch(s: seq<Project>, offset: int, fetch: int): (r: seq<Project>)
    ensures var from := if offset < 0 then 0 else offset;
      && |r| == (if from >= |s| || fetch <= 0 then 0 else if fetch < |s| - from then fetch else |s| - from)
      && forall i :: 0 <= i < |r| ==> r[i] == s[from + i]
  {
    var from := if offset < 0 then 0 else if offset > |s| then |s| else offset;
    var n := if fetch < 0 then 0 else if from + fetch > |s| then |s| - from else fetch;
    s[from..from + n]
  }

  /** `findAllByUserSub(userSub, page, pageSize)`: the subject's active
      projects, one page of them. Table order stands for the caller's sort. */
  function FindAllByUserSub(rows: seq<Project>, userSub: string, page: Int32, pageSize: Int32): (r: seq<Project>)
    ensures forall p :: p in r ==> p in rows && p.userSub == userSub && p.aktiv
    ensures |r| <= if pageSize < 0 then 0 else pageSize
  {
    var r := OffsetFetch(ActiveOf(rows, userSub), PageOffset(page, pageSize), pageSize);
    assert forall p :: p in r ==> p in ActiveOf(rows, userSub);
    r
  }

  lemma PageOffsetExact(page: Int32, pageSize: Int32)
    requires 1 <= page && 0 <= pageSize && (page - 1) * pageSize < 0x8000_0000
    ensures PageOffset(page, pageSize) == (page - 1) * pageSize
  {
    var a := page - 1;
    assert Wrap32(a) == a;
    var m := a * pageSize;
    assert 0 <= m;
    assert Wrap32(m) == m;
  }

  /** Two windows side by side are the window that spans both: paging
      through the rows with any page sizes skips and repeats nothing. */
  lemma PagesTile(s: seq<Project>, offset: nat, a: nat, b: nat)
    ensures OffsetFetch(s, offset, a) + OffsetFetch(s, offset + a, b) == OffsetFetch(s, offset, a + b)
  {
    var x, y, z := OffsetFetch(s, offset, a), OffsetFetch(s, offset + a, b), OffsetFetch(s, offset, a + b);
    assert |x + y| == |z|;
    forall i | 0 <= i < |z| ensures (x + y)[i] == z[i] {
      if i >= |x| {
        assert (x + y)[i] == y[i - |x|];
      }
    }
  }

  /** A page whose offset `from` is not negative holds active projects
      number `from` up to from+pageSize, in order. */
  lemma PageSlice(rows: seq<Project>, userSub: string, page: Int32, pageSize: Int32, from: int)
    requires 0 <= pageSize && 0 <= from == PageOffset(page, pageSize)
    ensures var a := ActiveOf(rows, userSub);
      FindAllByUserSub(rows, userSub, page, pageSize)
        == if from >= |a| then [] else a[from..if from + pageSize > |a| then |a| else from + pageSize]
  {
    var a := ActiveOf(rows, userSub);
    assert FindAllByUserSub(rows, userSub, page, pageSize) == OffsetFetch(a, from, pageSize);
  }

  lemma PageOfIndex(i: int, n: int) returns (q: int, from: int)
    requires 0 <= i && 0 < n
    ensures q == i / n && from == q * n
    ensures 0 <= q <= from <= i < from + n
  {
    q := i / n;
    from := q * n;
    var r := i % n;
    assert i == from + r && 0 <= r < n;
    MulAtLeast(q, n);
  }

  /** A window that starts at `from` holds the element at position `i`
      whenever `i` lies within its `n` rows. */
  lemma WindowHolds(a: seq<Project>, from: int, n: int, i: int)
    requires 0 <= from <= i < from + n && i < |a|
    ensures a[i] in OffsetFetch(a, from, n)
  {
    var to := if from + n > |a| then |a| else from + n;
    assert OffsetFetch(a, from, n)[i - from] == a[i];
  }

  /** Every active project is on the page its position says. */
  lemma EveryProjectOnItsPage(rows: seq<Project>, userSub: string, i: int, pageSize: Int32)
    requires 0 < pageSize && 0 <= i < |ActiveOf(rows, userSub)| && i < 0x7FFF_FFFF
    ensures var page := i / pageSize + 1;
      page <= 0x7FFF_FFFF && ActiveOf(rows, userSub)[i] in FindAllByUserSub(rows, userSub, page as Int32, pageSize)
  {
    var q, from := PageOfIndex(i, pageSize);
    var page: Int32 := q + 1;
    assert (page - 1) * pageSize == from;
    PageOffsetExact(page, pageSize);
    WindowHolds(ActiveOf(rows, userSub), from, pageSize, i);
  }

  /** The offset wraps: with pages of 2^30 rows, page 3 asks for offset
      2^31, which Kotlin computes as -2^31, and the database returns page 1. */
  lemma OffsetOverflowShowsFirstPage(rows: seq<Project>, userSub: string)
    ensures FindAllByUserSub(rows, userSub, 3, 0x4000_0000) == FindAllByUserSub(rows, userSub, 1, 0x4000_0000)
  {
    assert PageOffset(3, 0x4000_0000) == -0x8000_0000;
    assert PageOffset(1, 0x4000_0000) == 0;
  }

  /** `existsWithTimeregistrering`: `SELECT COUNT(*) FROM time_entries WHERE
      prosjekt_id = ?` is positive. Entries of every owner count. */
  function ExistsWithTimeregistrering(entries: seq<TimeEntries.TimeEntry>, projectId: int): (r: bool)
    ensures r <==> exists e :: e in entries && e.prosjektId == projectId
  {
    CountForProject(entries, projectId) > 0
  }

  function CountForProject(entries: seq<TimeEntries.TimeEntry>, projectId: int): (n: nat)
    ensures n > 0 <==> exists e :: e in entries && e.prosjektId == projectId
  {
    if entries == [] then 0
    else
      assert forall e :: e in entries ==> e == entries[0] || e in entries[1..];
      (if entries[0].prosjektId == projectId then 1 else 0) + CountForProject(entries[1..], projectId)
  }

  // ---------------------------------------------------------------------------
  // The statements that change the table.

  /** `UPDATE projects SET navn = ?, beskrivelse = ?, endret_dato = ?
      WHERE project_id = ? AND user_sub = ?`, with `project`'s values. */
  function UpdateRows(rows: seq<Project>, project: Project): (r: seq<Project>)
    ensures |r| == |rows|
    ensures forall i :: 0 <= i < |rows| ==>
      && r[i].projectId == rows[i].projectId && r[i].userSub == rows[i].userSub
      && r[i].aktiv == rows[i].aktiv && r[i].opprettetDato == rows[i].opprettetDato
    ensures forall i :: 0 <= i < |rows| && Owns(rows[i], project.projectId, project.userSub) ==>
      && r[i].navn == project.navn && r[i].beskrivelse == project.beskrivelse
      && r[i].endretDato == project.endretDato
    ensures forall i :: 0 <= i < |rows| && !Owns(rows[i], project.projectId, project.userSub) ==> r[i] == rows[i]
  {
    seq(|rows|, i requires 0 <= i < |rows| =>
      if Owns(rows[i], project.projectId, project.userSub)
      then rows[i].(navn := project.navn, beskrivelse := project.beskrivelse, endretDato := project.endretDato)
      else rows[i])
  }

  /** `UPDATE projects SET aktiv = 0, endret_dato = ? WHERE project_id = ?
      AND user_sub = ?`: no `aktiv = 1` in the WHERE clause. */
  function SoftDeleteRows(rows: seq<Project>, projectId: int, userSub: string, now: Timestamp): (r: seq<Project>)
    ensures |r| == |rows|
    ensures forall i :: 0 <= i < |rows| ==>
      && r[i].projectId == rows[i].projectId && r[i].userSub == rows[i].userSub
      && r[i].aktiv == (rows[i].aktiv && !Owns(rows[i], projectId, userSub))
    ensures forall i :: 0 <= i < |rows| && Owns(rows[i], projectId, userSub) ==>
      r[i] == rows[i].(aktiv := false, endretDato := now)
    ensures forall i :: 0 <= i < |rows| && !Owns(rows[i], projectId, userSub) ==> r[i] == rows[i]
  {
    seq(|rows|, i requires 0 <= i < |rows| =>
      if Owns(rows[i], projectId, userSub) then rows[i].(aktiv := false, endretDato := now) else rows[i])
  }

  predicate AnyOwned(rows: seq<Project>, projectId: int, userSub: string) {
    exists i :: 0 <= i < |rows| && Owns(rows[i], projectId, userSub)
  }

  /** After a soft delete the project is no longer found. */
  lemma SoftDeletedNotFound(rows: seq<Project>, projectId: int, userSub: string, now: Timestamp)
    ensures FindByIdAndUserSub(SoftDeleteRows(rows, projectId, userSub, now), projectId, userSub).None?
  {
    var r := SoftDeleteRows(rows, projectId, userSub, now);
    forall p | p in r ensures !(Owns(p, projectId, userSub) && p.aktiv) {
      var i :| 0 <= i < |r| && r[i] == p;
    }
  }

  /** A soft delete leaves every other subject's and every other project's
      activity as it was. */
  lemma SoftDeleteOnlyThatProject(rows: seq<Project>, projectId: int, userSub: string, now: Timestamp, id: int, sub: string)
    requires id != projectId || sub != userSub
    ensures ActiveProjectOf(SoftDeleteRows(rows, projectId, userSub, now), id, sub) <==> ActiveProjectOf(rows, id, sub)
  {
    var r := SoftDeleteRows(rows, projectId, userSub, now);
    if ActiveProjectOf(rows, id, sub) {
      var p :| p in rows && Owns(p, id, sub) && p.aktiv;
      var i :| 0 <= i < |rows| && rows[i] == p;
      assert r[i] in r;
    }
    if ActiveProjectOf(r, id, sub) {
      var p :| p in r && Owns(p, id, sub) && p.aktiv;
      var i :| 0 <= i < |r| && r[i] == p;
      assert rows[i] in rows;
    }
  }

  /** Ids are unique and below `bound`. */
  predicate IdsBelow(rows: seq<Project>, bound: int) {
    && (forall p :: p in rows ==> 1 <= p.projectId < bound)
    && (forall i, j :: 0 <= i < j < |rows| ==> rows[i].projectId != rows[j].projectId)
  }

  /** Ids are unique, so the UPDATE rewrites the one row that has the
      project's id and owner, and only that row. */
  lemma UpdateOnlyThatRow(rows: seq<Project>, project: Project, bound: int, k: int)
    requires IdsBelow(rows, bound) && 0 <= k < |rows| && Owns(rows[k], project.projectId, project.userSub)
    ensures UpdateRows(rows, project)
      == rows[k := rows[k].(navn := project.navn, beskrivelse := project.beskrivelse, endretDato := project.endretDato)]
  {
    var r := UpdateRows(rows, project);
    forall i | 0 <= i < |rows| && i != k ensures r[i] == rows[i] {
      assert rows[i].projectId != rows[k].projectId;
    }
  }

  /** Likewise the soft delete rewrites exactly one row: inactive, with the
      new change time. */
  lemma SoftDeleteOnlyThatRow(rows: seq<Project>, projectId: int, userSub: string, now: Timestamp, bound: int, k: int)
    requires IdsBelow(rows, bound) && 0 <= k < |rows| && Owns(rows[k], projectId, userSub)
    ensures SoftDeleteRows(rows, projectId, userSub, now) == rows[k := rows[k].(aktiv := false, endretDato := now)]
  {
    var r := SoftDeleteRows(rows, projectId, userSub, now);
    forall i | 0 <= i < |rows| && i != k ensures r[i] == rows[i] {
      assert rows[i].projectId != rows[k].projectId;
    }
  }

  lemma UpdateKeepsIds(rows: seq<Project>, project: Project, bound: int)
    requires IdsBelow(rows, bound)
    ensures IdsBelow(UpdateRows(rows, project), bound)
  {
    var r := UpdateRows(rows, project);
    forall p | p in r ensures 1 <= p.projectId < bound {
      var i :| 0 <= i < |r| && r[i] == p;
      assert rows[i] in rows;
    }
  }

  lemma SoftDeleteKeepsIds(rows: seq<Project>, projectId: int, userSub: string, now: Timestamp, bound: int)
    requires IdsBelow(rows, bound)
    ensures IdsBelow(SoftDeleteRows(rows, projectId, userSub, now), bound)
  {
    var r := SoftDeleteRows(rows, projectId, userSub, now);
    forall p | p in r ensures 1 <= p.projectId < bound {
      var i :| 0 <= i < |r| && r[i] == p;
      assert rows[i] in rows;
    }
  }

  /** The repository over an in-memory `projects` table. `timeEntries` is
      the `time_entries` table of the same database, which
      `existsWithTimeregistrering` reads. */
  class ProjectRepository {
    var rows: seq<Project>
    var nextId: int
    const timeEntries: TimeEntries.TimeEntryRepository

    predicate Valid()
      reads this
    {
      nextId >= 1 && IdsBelow(rows, nextId)
    }

    constructor(timeEntries: TimeEntries.TimeEntryRepository)
      ensures Valid() && rows == [] && this.timeEntries == timeEntries
    {
      rows := [];
      nextId := 1;
      this.timeEntries := timeEntries;
    }

    /** `save`: INSERT under a fresh generated id; return the project with it. */
    method Save(project: Project) returns (saved: Project)
      requires Valid()
      modifies this
      ensures Valid()
      ensures saved == project.(projectId := old(nextId))
      ensures rows == old(rows) + [saved]
      ensures forall p :: p in old(rows) ==> p.projectId != saved.projectId
    {
      saved := project.(projectId := nextId);
      var r := rows + [saved];
      forall p | p in r ensures 1 <= p.projectId < nextId + 1 {
        if p != saved {
          assert p in rows;
        }
      }
      forall i, j | 0 <= i < j < |r| ensures r[i].projectId != r[j].projectId {
        assert r[i] == rows[i] && rows[i] in rows;
        if j < |rows| {
          assert r[j] == rows[j];
        }
      }
      rows := r;
      nextId := nextId + 1;
    }

    /** `update`: true iff a row with the project's id and owner was changed. */
    method Update(project: Project) returns (updated: bool)
      requires Valid()
      modifies this
      ensures Valid()
      ensures rows == UpdateRows(old(rows), project) && nextId == old(nextId)
      ensures updated <==> AnyOwned(old(rows), project.projectId, project.userSub)
    {
      updated := AnyOwned(rows, project.projectId, project.userSub);
      UpdateKeepsIds(rows, project, nextId);
      rows := UpdateRows(rows, project);
    }

    /** `softDelete`, with the repository's clock `now`. */
    method SoftDelete(projectId: int, userSub: string, now: Timestamp) returns (deleted: bool)
      requires Valid()
      modifies this
      ensures Valid()
      ensures rows == SoftDeleteRows(old(rows), projectId, userSub, now) && nextId == old(nextId)
      ensures deleted <==> AnyOwned(old(rows), projectId, userSub)
    {
      deleted := AnyOwned(rows, projectId, userSub);
      SoftDeleteKeepsIds(rows, projectId, userSub, now, nextId);
      rows := SoftDeleteRows(rows, projectId, userSub, now);
    }
  }
}
