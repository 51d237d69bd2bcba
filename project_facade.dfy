/** `ProjectFacadeImpl` (feature/project): the project use cases over the
    project repository, whose `existsWithTimeregistrering` reads the
    time-entry table. The clock is a parameter. */
module ProjectService {
  import opened Wrappers
  import opened Jvm
  import opened Text
  import opened Projects
  import TimeEntries
  import V = TimeEntryValidator

  const MsgProjectNotFound: string := "Prosjekt ikke funnet"
  const MsgUpdateFailed: string := "Kunne ikke oppdatere prosjekt"
  const MsgHasEntries: string := "Kan ikke slette prosjekt med registrerte timer"

  /** `CreateProjectRequest`; `UpdateProjectRequest` has the same fields. The
      bean-validation annotations on them are checked before the facade runs. */
  datatype ProjectRequest = ProjectRequest(navn: string, beskrivelse: Option<string>)

  datatype ProjectDto = ProjectDto(
    projectId: int,
    navn: string,
    beskrivelse: Option<string>,
    aktiv: bool,
    opprettetDato: Timestamp,
    endretDato: Timestamp)

  datatype ProjectListResponse = ProjectListResponse(
    projects: seq<ProjectDto>,
    page: Int32,
    pageSize: Int32,
    total: int)

  /** `Project.toDto()`: every field but the owner. */
  function ToDto(p: Project): ProjectDto {
    ProjectDto(p.projectId, p.navn, p.beskrivelse, p.aktiv, p.opprettetDato, p.endretDato)
  }

  /** `s?.trim()`. */
  function TrimOpt(s: Option<string>): Option<string> {
    match s
    case None => None
    case Some(v) => Some(Trim(Kotlin, v))
  }

  /** The project `createProject` builds: trimmed, active, both timestamps `now`. */
  function NewProject(userSub: string, request: ProjectRequest, now: Timestamp): Project {
    Project(0, userSub, Trim(Kotlin, request.navn), TrimOpt(request.beskrivelse), true, now, now)
  }

  /** `existing.copy(navn = request.navn.trim(), beskrivelse = request.beskrivelse?.trim(), endretDato = now)`. */
  function Renamed(existing: Project, request: ProjectRequest, now: Timestamp): Project {
    existing.(navn := Trim(Kotlin, request.navn), beskrivelse := TrimOpt(request.beskrivelse), endretDato := now)
  }

  class ProjectFacadeImpl {
    const projectRepository: ProjectRepository

    predicate Valid()
      reads this, projectRepository, projectRepository.timeEntries
    {
      V.StoresValid(projectRepository.timeEntries, projectRepository)
    }

    constructor(projectRepository: ProjectRepository)
      requires V.StoresValid(projectRepository.timeEntries, projectRepository)
      ensures Valid() && this.projectRepository == projectRepository
    {
      this.projectRepository := projectRepository;
    }

    /** `createProject`: save the trimmed, active project. */
    method CreateProject(userSub: string, request: ProjectRequest, now: Timestamp) returns (r: ProjectDto)
      requires Valid()
      modifies projectRepository
      ensures Valid()
      ensures var saved := NewProject(userSub, request, now).(projectId := old(projectRepository.nextId));
        && r == ToDto(saved)
        && projectRepository.rows == old(projectRepository.rows) + [saved]
      ensures ActiveProjectOf(projectRepository.rows, r.projectId, userSub)
    {
      var project := NewProject(userSub, request, now);
      V.AppendProjectKeepsConsistent(projectRepository.rows, projectRepository.timeEntries.rows,
        project.(projectId := projectRepository.nextId));
      var saved := projectRepository.Save(project);
      assert saved in projectRepository.rows;
      r := ToDto(saved);
    }

    /** `getProject`: the caller's project with this id, if it is active. */
    method GetProject(userSub: string, projectId: int) returns (r: Option<ProjectDto>)
      ensures r.Some? <==> ActiveProjectOf(projectRepository.rows, projectId, userSub)
      ensures r.Some? ==> exists p :: p in projectRepository.rows && Owns(p, projectId, userSub) && p.aktiv && r.value == ToDto(p)
    {
      var found := FindByIdAndUserSub(projectRepository.rows, projectId, userSub);
      r := if found.Some? then Some(ToDto(found.value)) else None;
    }

    /** `listProjects`: one page of the caller's active projects and the
        number of them all. */
    method ListProjects(userSub: string, page: Int32, pageSize: Int32) returns (r: ProjectListResponse)
      ensures r.page == page && r.pageSize == pageSize
      ensures r.total == |ActiveOf(projectRepository.rows, userSub)|
      ensures |r.projects| <= if pageSize < 0 then 0 else pageSize
      ensures forall d :: d in r.projects ==> DtoOfActive(d, projectRepository.rows, userSub)
      ensures var ps := FindAllByUserSub(projectRepository.rows, userSub, page, pageSize);
        |r.projects| == |ps| && forall i :: 0 <= i < |ps| ==> r.projects[i] == ToDto(ps[i])
    {
      var ps := FindAllByUserSub(projectRepository.rows, userSub, page, pageSize);
      var total := CountByUserSub(projectRepository.rows, userSub);
      CountIsActiveRows(projectRepository.rows, userSub);
      var dtos := seq(|ps|, i requires 0 <= i < |ps| => ToDto(ps[i]));
      forall d | d in dtos ensures DtoOfActive(d, projectRepository.rows, userSub) {
        var i :| 0 <= i < |dtos| && dtos[i] == d;
        assert ps[i] in ps;
      }
      r := ProjectListResponse(dtos, page, pageSize, total);
    }

    /** `updateProject`: rename the caller's active project. */
    method UpdateProject(userSub: string, projectId: int, request: ProjectRequest, now: Timestamp)
      returns (r: Result<ProjectDto, Exception>)
      requires Valid()
      modifies projectRepository
      ensures Valid()
      ensures r.Failure? ==> projectRepository.rows == old(projectRepository.rows)
      ensures match FindByIdAndUserSub(old(projectRepository.rows), projectId, userSub)
        case None =>
          r == Failure(IllegalArgumentOf(MsgProjectNotFound))
        case Some(existing) =>
          var updated := Renamed(existing, request, now);
          r == Success(ToDto(updated)) && projectRepository.rows == UpdateRows(old(projectRepository.rows), updated)
    {
      var found := FindByIdAndUserSub(projectRepository.rows, projectId, userSub);
      if found.None? {
        return Failure(IllegalArgumentOf(MsgProjectNotFound));
      }
      var updated := Renamed(found.value, request, now);
      ghost var k :| 0 <= k < |projectRepository.rows| && projectRepository.rows[k] == found.value;
      assert AnyOwned(projectRepository.rows, projectId, userSub) by {
        assert Owns(projectRepository.rows[k], projectId, userSub);
      }
      var te := projectRepository.timeEntries;
      ghost var entries := te.rows;
      ghost var before := projectRepository.rows;
      V.UpdateProjectKeepsConsistent(before, entries, updated);
      var ok := projectRepository.Update(updated);
      assert te.rows == entries && te.Valid();
      assert projectRepository.rows == UpdateRows(before, updated);
      assert V.Consistent(projectRepository.rows, te.rows);
      if !ok {
        return Failure(IllegalState(MsgUpdateFailed));
      }
      r := Success(ToDto(updated));
    }

    /** `deleteProject`: soft-delete the caller's active project, unless some
        time entry refers to it. */
    method DeleteProject(userSub: string, projectId: int, now: Timestamp) returns (r: Result<bool, Exception>)
      requires Valid()
      modifies projectRepository
      ensures Valid()
      ensures r.Failure? ==> projectRepository.rows == old(projectRepository.rows)
      ensures !ActiveProjectOf(old(projectRepository.rows), projectId, userSub) ==>
        r == Failure(IllegalArgumentOf(MsgProjectNotFound))
      ensures (&& ActiveProjectOf(old(projectRepository.rows), projectId, userSub)
               && ExistsWithTimeregistrering(projectRepository.timeEntries.rows, projectId)) ==>
        r == Failure(IllegalState(MsgHasEntries))
      ensures (&& ActiveProjectOf(old(projectRepository.rows), projectId, userSub)
               && !ExistsWithTimeregistrering(projectRepository.timeEntries.rows, projectId)) ==>
        && r == Success(true)
        && projectRepository.rows == SoftDeleteRows(old(projectRepository.rows), projectId, userSub, now)
        && !ActiveProjectOf(projectRepository.rows, projectId, userSub)
    {
      var found := FindByIdAndUserSub(projectRepository.rows, projectId, userSub);
      if found.None? {
        return Failure(IllegalArgumentOf(MsgProjectNotFound));
      }
      var entries := projectRepository.timeEntries.rows;
      if ExistsWithTimeregistrering(entries, projectId) {
        return Failure(IllegalState(MsgHasEntries));
      }
      var before := projectRepository.rows;
      ghost var k :| 0 <= k < |before| && before[k] == found.value;
      V.SoftDeleteKeepsConsistent(before, entries, projectId, userSub, now);
      SoftDeletedNotFound(before, projectId, userSub, now);
      var deleted := projectRepository.SoftDelete(projectId, userSub, now);
      r := Success(deleted);
    }
  }

  /** `d` is the DTO of an active project of `userSub`. */
  ghost predicate DtoOfActive(d: ProjectDto, rows: seq<Project>, userSub: string) {
    exists p :: p in rows && p.userSub == userSub && p.aktiv && d == ToDto(p)
  }
}
