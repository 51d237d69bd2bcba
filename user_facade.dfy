/** `UserFacadeImpl`: registration, lookup, update and deletion of users over
    the user repository. Each use case runs in one transaction; the clock is
    a parameter. */
module UserService {
  import opened Wrappers
  import opened Jvm
  import opened Text
  import opened Users

  const MsgDuplicateEmail: string := "Epost addressen er allerede registrert"
  const MsgUserNotFound: string := "Bruker ikke funnet"

  /** `CreateUserRequest`; its bean-validation annotations are checked before
      the facade runs. */
  datatype CreateUserRequest = CreateUserRequest(navn: string, mobil: string, epost: string)

  /** `UpdateUserRequest`: a missing field keeps the stored value. */
  datatype UpdateUserRequest = UpdateUserRequest(navn: Option<string>, mobil: Option<string>, epost: Option<string>)

  /** `UserDto`. The id is the user id and the two timestamps are the stored
      ones; their decimal and ISO-8601 renderings are not modelled. */
  datatype UserDto = UserDto(id: int, navn: string, mobil: string, epost: string, createdAt: Timestamp, updatedAt: Timestamp)

  /** `User.toDto()`. */
  function ToDto(u: User): UserDto {
    UserDto(u.userId, u.navn, u.mobil, u.epost, u.opprettetDato, u.sistEndret)
  }

  /** The user `createUser` hands to `save`: trimmed fields, a lower-cased
      email, the defaults of `User` for the rest. */
  function NewUser(request: CreateUserRequest, now: Timestamp): User {
    User(0, Trim(Kotlin, request.navn), Trim(Kotlin, request.mobil), Lower(Trim(Kotlin, request.epost)),
         Active, now, now, 1)
  }

  /** `request.x?.trim() ?: existing.x`. */
  function TrimOr(field: Option<string>, stored: string): string {
    match field
    case None => stored
    case Some(v) => Trim(Kotlin, v)
  }

  /** The copy of the stored user that `updateUser` hands to `save`. */
  function Merged(existing: User, request: UpdateUserRequest): User {
    existing.(
      navn := TrimOr(request.navn, existing.navn),
      mobil := TrimOr(request.mobil, existing.mobil),
      epost := match request.epost
               case None => existing.epost
               case Some(e) => Lower(Trim(Kotlin, e)))
  }

  /** `updateUser` refuses a new email, as given and lower-cased, that differs
      from the stored one while some live user has it. */
  predicate EmailClash(rows: seq<UserRow>, existing: User, request: UpdateUserRequest) {
    request.epost.Some? && Lower(request.epost.value) != existing.epost && ExistsByEpost(rows, request.epost.value)
  }

  /** Neither end of the text is whitespace. */
  predicate Unpadded(s: string) {
    s == [] || (!IsSpace(Kotlin, s[0]) && !IsSpace(Kotlin, s[|s| - 1]))
  }

  /** Every email the facade has stored is trimmed. */
  predicate EmailsUnpadded(rows: seq<UserRow>) {
    forall row :: row in rows ==> Unpadded(row.user.epost)
  }

  /** Lower-casing keeps whitespace where it was. */
  lemma LowerKeepsPadding(s: string)
    ensures Unpadded(Lower(s)) <==> Unpadded(s)
  {
    if s != [] {
      LowerCharSpace(Kotlin, s[0]);
      LowerCharSpace(Kotlin, s[|s| - 1]);
    }
  }

  /** What `createUser` and `updateUser` store as an email is trimmed. */
  lemma StoredEmailUnpadded(e: string)
    ensures Unpadded(Lower(Trim(Kotlin, e)))
    ensures Lower(Lower(Trim(Kotlin, e))) == Lower(Trim(Kotlin, e))
  {
    TrimSpec(Kotlin, e);
    LowerKeepsPadding(Trim(Kotlin, e));
    LowerIdempotent(Trim(Kotlin, e));
  }

  /** The duplicate check of `createUser` looks up the email as given, but
      the trimmed email is stored. An email with whitespace around it is
      therefore never reported taken, and registering it again for a user
      whose email it is leaves two live users with one email, after which
      `findByEpost` on it throws. */
  lemma PaddedEmailRegistersTwice(rows: seq<UserRow>, u: User, request: CreateUserRequest, id: int, now: Timestamp)
    requires EmailsUnpadded(rows) && UserRow(u, false) in rows && NormalForm(u)
    requires !Unpadded(request.epost) && u.epost == Lower(Trim(Kotlin, request.epost))
    ensures !ExistsByEpost(rows, request.epost)
    ensures var after := rows + [UserRow(Inserted(NewUser(request, now), id, now), false)];
      SharedEpost(after, u.epost) && FindByEpost(after, u.epost).Failure?
  {
    LowerKeepsPadding(request.epost);
    forall v | UserRow(v, false) in rows ensures v.epost != Lower(request.epost) {
      assert Unpadded(v.epost);
    }
    StoredEmailUnpadded(request.epost);
    var after := rows + [UserRow(Inserted(NewUser(request, now), id, now), false)];
    var i :| 0 <= i < |rows| && rows[i] == UserRow(u, false);
    assert LiveWith(after[i], u.epost) && LiveWith(after[|rows|], u.epost);
    assert Lower(u.epost) == u.epost;
  }

  class UserFacadeImpl {
    const userRepository: UserRepository

    predicate Valid()
      reads this, userRepository
    {
      userRepository.Valid() && EmailsUnpadded(userRepository.rows)
    }

    constructor(userRepository: UserRepository)
      requires userRepository.Valid() && EmailsUnpadded(userRepository.rows)
      ensures Valid() && this.userRepository == userRepository
    {
      this.userRepository := userRepository;
    }

    /** `createUser`: refuse a taken email, otherwise save the trimmed user. */
    method CreateUser(request: CreateUserRequest, now: Timestamp) returns (r: Result<UserDto, Exception>)
      requires Valid()
      modifies userRepository
      ensures Valid()
      ensures ExistsByEpost(old(userRepository.rows), request.epost) ==>
        r == Failure(IllegalArgumentOf(MsgDuplicateEmail)) && userRepository.rows == old(userRepository.rows)
      ensures !ExistsByEpost(old(userRepository.rows), request.epost) ==>
        var saved := Inserted(NewUser(request, now), old(userRepository.nextId), now);
        && r == Success(ToDto(saved))
        && userRepository.rows == old(userRepository.rows) + [UserRow(saved, false)]
      ensures r.Success? ==>
        && r.value.navn == Trim(Kotlin, request.navn)
        && r.value.mobil == NormalizeMobileNumber(Trim(Kotlin, request.mobil))
        && r.value.epost == Lower(Trim(Kotlin, request.epost))
    {
      if ExistsByEpost(userRepository.rows, request.epost) {
        return Failure(IllegalArgumentOf(MsgDuplicateEmail));
      }
      var user := NewUser(request, now);
      StoredEmailUnpadded(request.epost);
      var saved := userRepository.Save(user, now);
      r := Success(ToDto(saved.value));
    }

    /** `findUserById`: the live user with this id, if any. */
    method FindUserById(id: int) returns (r: Option<UserDto>)
      ensures r.None? <==> forall row :: row in userRepository.rows ==> row.deleted || row.user.userId != id
      ensures r.Some? ==> exists u :: UserRow(u, false) in userRepository.rows && u.userId == id && r.value == ToDto(u)
    {
      var found := FindById(userRepository.rows, id);
      r := if found.Some? then Some(ToDto(found.value)) else None;
    }

    /** `updateUser`: merge the request into the live user with this id and
        save it under that user's version. */
    method UpdateUser(id: int, request: UpdateUserRequest, now: Timestamp) returns (r: Result<UserDto, Exception>)
      requires Valid()
      modifies userRepository
      ensures Valid()
      ensures r.Failure? ==> r.error.IllegalArgument? && userRepository.rows == old(userRepository.rows)
      ensures match FindById(old(userRepository.rows), id)
        case None =>
          r == Failure(IllegalArgumentOf(MsgUserNotFound))
        case Some(existing) =>
          if EmailClash(old(userRepository.rows), existing, request) then
            r == Failure(IllegalArgumentOf(MsgDuplicateEmail))
          else
            var merged := Merged(existing, request);
            && r == Success(ToDto(Updated(merged, now)))
            && userRepository.rows == Users.UpdateRows(old(userRepository.rows), merged, now)
    {
      var found := FindById(userRepository.rows, id);
      if found.None? {
        return Failure(IllegalArgumentOf(MsgUserNotFound));
      }
      var existing := found.value;
      if request.epost.Some? {
        var newEmail := request.epost.value;
        if Lower(newEmail) != existing.epost && ExistsByEpost(userRepository.rows, newEmail) {
          return Failure(IllegalArgumentOf(MsgDuplicateEmail));
        }
      }
      var merged := Merged(existing, request);
      ghost var k :| 0 <= k < |userRepository.rows| && userRepository.rows[k] == UserRow(existing, false);
      assert VersionMatches(userRepository.rows[k], merged.userId, merged.version);
      assert userRepository.rows[k] in userRepository.rows;
      MergedKeepsUnpadded(userRepository.rows, existing, request, now);
      var saved := userRepository.Save(merged, now);
      // the row was read in this transaction, so its version still matches
      assert saved.Success?;
      r := Success(ToDto(saved.value));
    }

    /** `deleteUser`: soft-delete the live user with this id. */
    method DeleteUser(id: int) returns (r: Result<bool, Exception>)
      requires Valid()
      modifies userRepository
      ensures Valid()
      ensures FindById(old(userRepository.rows), id).None? ==>
        r == Failure(IllegalArgumentOf(MsgUserNotFound)) && userRepository.rows == old(userRepository.rows)
      ensures FindById(old(userRepository.rows), id).Some? ==>
        r == Success(true) && userRepository.rows == SoftDeleteRows(old(userRepository.rows), id)
    {
      var user := FindById(userRepository.rows, id);
      if user.None? {
        return Failure(IllegalArgumentOf(MsgUserNotFound));
      }
      DeleteKeepsUnpadded(userRepository.rows, id);
      var deleted := userRepository.Delete(id);
      r := Success(deleted);
    }

    /** `findUserByEpost`: the repository's answer as a DTO. */
    method FindUserByEpost(epost: string) returns (r: Result<Option<UserDto>, Exception>)
      ensures r.Failure? <==> SharedEpost(userRepository.rows, Lower(epost))
      ensures r == Success(None) <==> !ExistsByEpost(userRepository.rows, epost)
      ensures r.Success? && r.value.Some? ==>
        exists u :: UserRow(u, false) in userRepository.rows && u.epost == Lower(epost) && r.value.value == ToDto(u)
    {
      var found := FindByEpost(userRepository.rows, epost);
      match found
      case Failure(e) =>
        r := Failure(e);
      case Success(None) =>
        r := Success(None);
      case Success(Some(u)) =>
        r := Success(Some(ToDto(u)));
    }

    /** `isEmailAvailable`: no live user has the lower-cased email. */
    method IsEmailAvailable(epost: string) returns (available: bool)
      ensures available <==> !ExistsByEpost(userRepository.rows, epost)
      ensures available <==> forall u :: UserRow(u, false) in userRepository.rows ==> u.epost != Lower(epost)
    {
      available := !ExistsByEpost(userRepository.rows, epost);
    }

    /** `getAllUsers`: one window of the live users, newest first, as DTOs. */
    method GetAllUsers(limit: Int32, offset: Int32) returns (r: seq<UserDto>)
      ensures var users := FindAll(userRepository.rows, limit, offset);
        |r| == |users| && forall i :: 0 <= i < |r| ==> r[i] == ToDto(users[i])
      ensures |r| <= if limit < 0 then 0 else limit as int
      ensures forall d :: d in r ==> DtoOfLive(d, userRepository.rows)
    {
      var users := FindAll(userRepository.rows, limit, offset);
      FindAllReturnsNewestLive(userRepository.rows, limit, offset);
      r := seq(|users|, i requires 0 <= i < |users| => ToDto(users[i]));
      forall d | d in r ensures DtoOfLive(d, userRepository.rows) {
        var i :| 0 <= i < |r| && r[i] == d;
        assert users[i] in users;
      }
    }
  }

  /** `d` is the DTO of a live user. */
  ghost predicate DtoOfLive(d: UserDto, rows: seq<UserRow>) {
    exists u :: UserRow(u, false) in rows && d == ToDto(u)
  }

  /** The versioned update of a merged user keeps every stored email trimmed. */
  lemma MergedKeepsUnpadded(rows: seq<UserRow>, existing: User, request: UpdateUserRequest, now: Timestamp)
    requires EmailsUnpadded(rows) && UserRow(existing, false) in rows
    ensures EmailsUnpadded(Users.UpdateRows(rows, Merged(existing, request), now))
  {
    var merged := Merged(existing, request);
    assert Unpadded(merged.epost) by {
      if request.epost.Some? {
        StoredEmailUnpadded(request.epost.value);
      }
    }
    LowerKeepsPadding(merged.epost);
    var r := Users.UpdateRows(rows, merged, now);
    forall row | row in r ensures Unpadded(row.user.epost) {
      var i :| 0 <= i < |r| && r[i] == row;
      assert rows[i] in rows;
    }
  }

  /** A soft delete keeps every stored email trimmed. */
  lemma DeleteKeepsUnpadded(rows: seq<UserRow>, id: int)
    requires EmailsUnpadded(rows)
    ensures EmailsUnpadded(SoftDeleteRows(rows, id))
  {
    var r := SoftDeleteRows(rows, id);
    forall row | row in r ensures Unpadded(row.user.epost) {
      var i :| 0 <= i < |r| && r[i] == row;
      assert rows[i] in rows;
    }
  }
}
