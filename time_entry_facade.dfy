/** `TimeEntryFacadeImpl`: the time-entry use cases. Each one runs in a
    transaction over the two repositories; the clock readings are
    parameters: the facade's own `LocalDateTime.now()`, and on update the
    repository's, which it reads later. */
module TimeEntryService {
  import opened Wrappers
  import opened Jvm
  import opened TimeEntries
  import P = Projects
  import V = TimeEntryValidator

  const MsgEntryNotFound: string := "Timeføring ikke funnet"
  const MsgUpdateFailed: string := "Kunne ikke oppdatere timeføring"

  datatype TimeEntryDto = TimeEntryDto(
    timeEntryId: Option<int>,
    prosjektId: int,
    dato: Date,
    timer: real,
    kommentar: Option<string>,
    opprettetDato: Option<Timestamp>,
    sistEndret: Option<Timestamp>)

  /** `TimeEntry.toDto()`: every field but the owner and the version. */
  function ToDto(e: TimeEntry): TimeEntryDto {
    TimeEntryDto(e.timeEntryId, e.prosjektId, e.dato, e.timer, e.kommentar, Some(e.opprettetDato), Some(e.sistEndret))
  }

  /** The entry `createTimeEntry` builds from a request: the request's
      project, date, hours and comment under the caller's subject. */
  function EntryOf(userSub: string, dto: TimeEntryDto, now: Timestamp): TimeEntry {
    NewEntry(dto.prosjektId, userSub, dto.dato, dto.timer, dto.kommentar, now)
  }

  /** `existing.copy(timer = dto.timer, kommentar = dto.kommentar, sistEndret = now)`. */
  function Edited(existing: TimeEntry, dto: TimeEntryDto, now: Timestamp): TimeEntry {
    existing.(timer := dto.timer, kommentar := dto.kommentar, sistEndret := now)
  }

  /** `d` is the DTO of a stored entry of `userSub` dated within the bounds. */
  ghost predicate DtoOfRowInRange(d: TimeEntryDto, rows: seq<TimeEntry>, userSub: string, from: Option<Date>, to: Option<Date>) {
    exists e :: e in rows && InRange(e, userSub, from, to) && d == ToDto(e)
  }

  class TimeEntryFacadeImpl {
    const repository: TimeEntryRepository
    const projects: P.ProjectRepository

    predicate Valid()
      reads this, repository, projects
    {
      V.StoresValid(repository, projects)
    }

    constructor(repository: TimeEntryRepository, projects: P.ProjectRepository)
      requires V.StoresValid(repository, projects)
      ensures Valid() && this.repository == repository && this.projects == projects
    {
      this.repository := repository;
      this.projects := projects;
    }

    /** `createTimeEntry`: validate the new entry, then save it. */
    method CreateTimeEntry(userSub: string, dto: TimeEntryDto, now: Timestamp) returns (r: Result<TimeEntryDto, Exception>)
      requires Valid()
      modifies repository
      ensures Valid()
      ensures var entry := EntryOf(userSub, dto, now);
        match V.ValidateCreateOrUpdate(projects.rows, old(repository.rows), entry)
        case Fail(ex) =>
          r == Failure(ex) && repository.rows == old(repository.rows)
        case Pass =>
          var saved := entry.(timeEntryId := Some(old(repository.nextId)));
          r == Success(ToDto(saved)) && repository.rows == old(repository.rows) + [saved]
    {
      var entry := EntryOf(userSub, dto, now);
      var verdict := V.ValidateCreateOrUpdate(projects.rows, repository.rows, entry);
      if verdict.Fail? {
        return Failure(verdict.error);
      }
      forall e | e in repository.rows ensures e.timeEntryId != Some(repository.nextId) {
        assert IdValue(e) < repository.nextId;
      }
      V.InsertKeepsConsistent(projects.rows, repository.rows, entry, repository.nextId);
      var saved := repository.Save(entry);
      r := Success(ToDto(saved));
    }

    /** `getTimeEntry`: the caller's own entry with this id, if any. */
    method GetTimeEntry(userSub: string, id: int) returns (r: Option<TimeEntryDto>)
      ensures r.None? <==> forall e :: e in repository.rows ==> !Matches(e, Some(id), userSub)
      ensures r.Some? ==> exists e :: e in repository.rows && Matches(e, Some(id), userSub) && r.value == ToDto(e)
    {
      var found := FindByIdAndUserSub(repository.rows, id, userSub);
      r := if found.Some? then Some(ToDto(found.value)) else None;
    }

    /** `listTimeEntries`: the caller's entries in the date range, newest
        first, as DTOs. */
    method ListTimeEntries(userSub: string, from: Option<Date>, to: Option<Date>) returns (r: seq<TimeEntryDto>)
      ensures var entries := EntriesOf(repository.rows, userSub, from, to);
        |r| == |entries| && forall i :: 0 <= i < |r| ==> r[i] == ToDto(entries[i])
      ensures forall d :: d in r ==> DtoOfRowInRange(d, repository.rows, userSub, from, to)
    {
      var entries := repository.FindAllByUserSub(userSub, from, to);
      r := seq(|entries|, i requires 0 <= i < |entries| => ToDto(entries[i]));
      forall d | d in r ensures DtoOfRowInRange(d, repository.rows, userSub, from, to) {
        var i :| 0 <= i < |r| && r[i] == d;
        assert entries[i] in entries;
      }
    }

    /** `updateTimeEntry`: find the caller's entry, change its hours and
        comment, validate the result against the other entries of that day
        and write it. The repository stamps the row with its own
        `LocalDateTime.now()`, `repoNow`, read after the facade's `now`: the
        stored `sist_endret` is `repoNow`, while the returned DTO carries
        `now`. */
    method UpdateTimeEntry(userSub: string, id: int, dto: TimeEntryDto, now: Timestamp, repoNow: Timestamp)
      returns (r: Result<TimeEntryDto, Exception>)
      requires Valid()
      modifies repository
      ensures Valid()
      ensures r.Failure? ==> r.error.IllegalArgument? && repository.rows == old(repository.rows)
      ensures match FindByIdAndUserSub(old(repository.rows), id, userSub)
        case None =>
          r == Failure(IllegalArgumentOf(MsgEntryNotFound))
        case Some(existing) =>
          var updated := Edited(existing, dto, now);
          match V.ValidateCreateOrUpdate(projects.rows, old(repository.rows), updated)
          case Fail(ex) => r == Failure(ex)
          case Pass =>
            r == Success(ToDto(updated)) && repository.rows == UpdateRows(old(repository.rows), updated, repoNow)
    {
      var found := FindByIdAndUserSub(repository.rows, id, userSub);
      if found.None? {
        return Failure(IllegalArgumentOf(MsgEntryNotFound));
      }
      var existing := found.value;
      var updated := Edited(existing, dto, now);
      var verdict := V.ValidateCreateOrUpdate(projects.rows, repository.rows, updated);
      if verdict.Fail? {
        return Failure(verdict.error);
      }
      ghost var k :| 0 <= k < |repository.rows| && repository.rows[k] == existing;
      UpdateOneRow(repository.rows, k, updated, repoNow);
      V.UpdateKeepsConsistent(projects.rows, repository.rows, k, updated, repoNow);
      var ok := repository.Update(updated, repoNow);
      if !ok {
        return Failure(IllegalState(MsgUpdateFailed));
      }
      r := Success(ToDto(updated));
    }

    /** `deleteTimeEntry`: true iff the caller had an entry with this id. */
    method DeleteTimeEntry(userSub: string, id: int) returns (deleted: bool)
      requires Valid()
      modifies repository
      ensures Valid()
      ensures repository.rows == Remove(old(repository.rows), Some(id), userSub)
      ensures deleted <==> exists e :: e in old(repository.rows) && Matches(e, Some(id), userSub)
    {
      V.RemoveKeepsConsistent(projects.rows, repository.rows, Some(id), userSub);
      deleted := repository.Delete(id, userSub);
      if deleted {
        ghost var i :| 0 <= i < |old(repository.rows)| && Matches(old(repository.rows)[i], Some(id), userSub);
        assert old(repository.rows)[i] in old(repository.rows);
      }
    }
  }
}
