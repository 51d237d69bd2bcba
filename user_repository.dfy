/** `UserRepository`: the `users` table with its soft-delete flag and its
    optimistic-locking `version` column, and the normalisation every write
    applies to the mobile number and the email address. The clock
    (`LocalDateTime.now()`) is a parameter. */
module Users {
  import opened Wrappers
  import opened Jvm
  import opened Text
  import FormValidation

  const MsgStaleUser: string := "User was modified by another transaction or does not exist"

  /** `UserStatus`; the column holds its name. */
  datatype UserStatus = Active | Pending | Suspended

  /** `User`: the columns the row mapper reads. `userId == 0` marks a user
      that has not been inserted yet. */
  datatype User = User(
    userId: int,
    navn: string,
    mobil: string,
    epost: string,
    status: UserStatus,
    opprettetDato: Timestamp,
    sistEndret: Timestamp,
    version: int)

  /** A row of `users`: the user and its `deleted` flag. */
  datatype UserRow = UserRow(user: User, deleted: bool)

  // ---------------------------------------------------------------------------
  // normalizeMobileNumber

  /** `normalizeMobileNumber`: whitespace removed, then the country code
      written as "+47"; a number of any other shape is returned as given,
      whitespace and all. */
  function NormalizeMobileNumber(mobil: string): (r: string)
    ensures r == mobil || (StartsWith(r, "+47") && NoSpace(JavaRegex, r))
  {
    var cleaned := StripSpace(JavaRegex, mobil);
    if StartsWith(cleaned, "+47") then cleaned
    else if StartsWith(cleaned, "47") then "+" + cleaned
    else if StartsWith(cleaned, "0047") then
      assert cleaned[2..][..2] == cleaned[..4][2..4] == "47";
      assert NoSpace(JavaRegex, cleaned[2..]) by {
        assert forall i :: 0 <= i < |cleaned[2..]| ==> cleaned[2..][i] == cleaned[i + 2];
      }
      "+" + cleaned[2..]
    else if |cleaned| == 8 then "+47" + cleaned
    else mobil
  }

  /** The normaliser either returns its input untouched or a whitespace-free
      "+47" number whose rest is what followed the country code in the
      cleaned input ("+47", "47" or "0047"), or is all of an eight-character
      cleaned input. */
  lemma NormalizedShape(mobil: string)
    ensures var r := NormalizeMobileNumber(mobil);
      var cleaned := StripSpace(JavaRegex, mobil);
      || r == mobil
      || (&& StartsWith(r, "+47") && NoSpace(JavaRegex, r)
          && (|| cleaned == "+47" + r[3..]
              || cleaned == "47" + r[3..]
              || cleaned == "0047" + r[3..]
              || (|cleaned| == 8 && cleaned == r[3..])))
  {
    var cleaned := StripSpace(JavaRegex, mobil);
    var r := NormalizeMobileNumber(mobil);
    if StartsWith(cleaned, "+47") {
      assert cleaned == cleaned[..3] + cleaned[3..];
    } else if StartsWith(cleaned, "47") {
      assert r == "+" + cleaned;
      assert r[1..3] == cleaned[..2];
      assert r[3..] == cleaned[2..];
      assert cleaned == cleaned[..2] + cleaned[2..];
      assert NoSpace(JavaRegex, r) by {
        forall i | 0 <= i < |r| ensures !IsSpace(JavaRegex, r[i]) {
          if i > 0 {
            assert r[i] == cleaned[i - 1];
          }
        }
      }
    } else if StartsWith(cleaned, "0047") {
      var rest := cleaned[2..];
      assert r == "+" + rest;
      assert rest[..2] == cleaned[2..4] == "47";
      assert r[1..3] == rest[..2];
      assert r[3..] == cleaned[4..];
      assert cleaned == cleaned[..4] + cleaned[4..];
      assert NoSpace(JavaRegex, r) by {
        forall i | 0 <= i < |r| ensures !IsSpace(JavaRegex, r[i]) {
          if i > 0 {
            assert r[i] == cleaned[i + 1];
          }
        }
      }
    } else if |cleaned| == 8 {
      assert r == "+47" + cleaned;
      assert r[3..] == cleaned;
      assert NoSpace(JavaRegex, r) by {
        forall i | 0 <= i < |r| ensures !IsSpace(JavaRegex, r[i]) {
          if i >= 3 {
            assert r[i] == cleaned[i - 3];
          }
        }
      }
    }
  }

  /** Normalising a normalised number changes nothing: the repository can
      apply it to every write, including writes of numbers it returned. */
  lemma NormalizeIdempotent(mobil: string)
    ensures NormalizeMobileNumber(NormalizeMobileNumber(mobil)) == NormalizeMobileNumber(mobil)
  {
    NormalizedShape(mobil);
    var r := NormalizeMobileNumber(mobil);
    if r != mobil {
      assert StripSpace(JavaRegex, r) == r;
    }
  }

  /** "47" and six more characters is eight characters long, but the "47"
      test comes first: the number gains only a "+", not a second "47". */
  lemma FortySevenBeforeLength(x: string)
    requires |x| == 6 && NoSpace(JavaRegex, x)
    ensures NormalizeMobileNumber("47" + x) == "+47" + x
  {
    var n := "47" + x;
    assert NoSpace(JavaRegex, n) by {
      forall i | 0 <= i < |n| ensures !IsSpace(JavaRegex, n[i]) {
        if i >= 2 {
          assert n[i] == x[i - 2];
        }
      }
    }
    assert StripSpace(JavaRegex, n) == n;
    assert n[0] == '4';
    assert n[..2] == "47";
  }

  /** "0047" is replaced by "+47". */
  lemma ZeroZeroFortySeven(x: string)
    requires NoSpace(JavaRegex, x)
    ensures NormalizeMobileNumber("0047" + x) == "+47" + x
  {
    var n := "0047" + x;
    assert NoSpace(JavaRegex, n) by {
      forall i | 0 <= i < |n| ensures !IsSpace(JavaRegex, n[i]) {
        if i >= 4 {
          assert n[i] == x[i - 4];
        }
      }
    }
    assert StripSpace(JavaRegex, n) == n;
    assert n[0] == '0';
    assert n[..4] == "0047";
    assert n[2..] == "47" + x;
  }

  /** Any other eight characters are taken as the national number. */
  lemma EightCharactersGainCountryCode(n: string)
    requires |n| == 8 && NoSpace(JavaRegex, n)
    requires n[0] != '+' && n[0] != '0' && !StartsWith(n, "47")
    ensures NormalizeMobileNumber(n) == "+47" + n
  {
    assert StripSpace(JavaRegex, n) == n;
    assert !StartsWith(n, "+47") && !StartsWith(n, "0047") by {
      assert n[..3][0] == n[..4][0] == n[0];
    }
  }

  /** The numbers the web form sends (its mobile transform's output) pass
      through the repository's normaliser unchanged. */
  lemma FormNumbersAreFixed(mobile: string)
    ensures var sent := FormValidation.NormalizeMobile(mobile);
      NormalizeMobileNumber(sent) == sent
  {
    var sent := FormValidation.NormalizeMobile(mobile);
    NoJavaScriptSpaceNoJavaRegexSpace(sent);
    assert StripSpace(JavaRegex, sent) == sent;
  }

  // ---------------------------------------------------------------------------
  // The stored form of a user

  /** What every write stores: a lower-cased email and a normalised mobile
      number. */
  predicate NormalForm(u: User) {
    Lower(u.epost) == u.epost && NormalizeMobileNumber(u.mobil) == u.mobil
  }

  /** The user `save` inserts and returns: the sequence's id, normalised
      contact fields, both timestamps `now` and version 1. */
  function Inserted(user: User, id: int, now: Timestamp): User {
    user.(userId := id, mobil := NormalizeMobileNumber(user.mobil), epost := Lower(user.epost),
          opprettetDato := now, sistEndret := now, version := 1)
  }

  /** The user a successful versioned update returns. */
  function Updated(user: User, now: Timestamp): User {
    user.(mobil := NormalizeMobileNumber(user.mobil), epost := Lower(user.epost),
          sistEndret := now, version := user.version + 1)
  }

  /** The `SET` part of the versioned update, on a row it matched. */
  function Rewritten(stored: User, user: User, now: Timestamp): User {
    stored.(navn := user.navn, mobil := NormalizeMobileNumber(user.mobil), epost := Lower(user.epost),
            status := user.status, sistEndret := now, version := stored.version + 1)
  }

  /** Whatever the caller passes, what `save` writes and returns is in
      normal form; an insert also starts the version at 1 with equal
      timestamps. */
  lemma SavedInNormalForm(user: User, stored: User, id: int, now: Timestamp)
    ensures var i := Inserted(user, id, now);
      NormalForm(i) && i.version == 1 && i.opprettetDato == i.sistEndret && i.userId == id
    ensures NormalForm(Updated(user, now)) && Updated(user, now).version == user.version + 1
    ensures NormalForm(Rewritten(stored, user, now))
  {
    LowerIdempotent(user.epost);
    NormalizeIdempotent(user.mobil);
  }

  // ---------------------------------------------------------------------------
  // Queries

  /** `WHERE user_id = ? AND deleted = 0`. */
  function FindById(rows: seq<UserRow>, id: int): (r: Option<User>)
    ensures r.Some? ==> UserRow(r.value, false) in rows && r.value.userId == id
    ensures r.None? <==> forall row :: row in rows ==> row.deleted || row.user.userId != id
  {
    if rows == [] then None
    else if !rows[0].deleted && rows[0].user.userId == id then Some(rows[0].user)
    else
      assert forall row :: row in rows ==> row == rows[0] || row in rows[1..];
      FindById(rows[1..], id)
  }

  /** The row is live and holds this (already lower-cased) email. */
  predicate LiveWith(row: UserRow, key: string) {
    !row.deleted && row.user.epost == key
  }

  /** `WHERE epost = ? AND deleted = 0`, in table order. */
  function WithEpost(rows: seq<UserRow>, key: string): (r: seq<User>)
    ensures |r| <= |rows|
    ensures forall u :: u in r <==> UserRow(u, false) in rows && u.epost == key
  {
    if rows == [] then []
    else
      assert forall row :: row in rows ==> row == rows[0] || row in rows[1..];
      (if LiveWith(rows[0], key) then [rows[0].user] else []) + WithEpost(rows[1..], key)
  }

  /** Two live rows hold the same email. */
  predicate SharedEpost(rows: seq<UserRow>, key: string) {
    exists i, j :: 0 <= i < j < |rows| && LiveWith(rows[i], key) && LiveWith(rows[j], key)
  }

  /** The query returns a row exactly when some live row holds the email. */
  lemma SomeIffLive(rows: seq<UserRow>, key: string)
    ensures |WithEpost(rows, key)| >= 1 <==> exists j :: 0 <= j < |rows| && LiveWith(rows[j], key)
  {
    var w := WithEpost(rows, key);
    if |w| >= 1 {
      assert w[0] in w;
      var j :| 0 <= j < |rows| && rows[j] == UserRow(w[0], false);
      assert LiveWith(rows[j], key);
    }
    if exists j :: 0 <= j < |rows| && LiveWith(rows[j], key) {
      var j :| 0 <= j < |rows| && LiveWith(rows[j], key);
      assert rows[j] == UserRow(rows[j].user, false) && rows[j] in rows;
      assert rows[j].user in w;
    }
  }

  /** With a live first row, a second live row is what sharing takes. */
  lemma SharedWithHead(rows: seq<UserRow>, key: string)
    requires rows != [] && LiveWith(rows[0], key)
    ensures SharedEpost(rows, key) <==> exists j :: 0 <= j < |rows[1..]| && LiveWith(rows[1..][j], key)
  {
    var t := rows[1..];
    if SharedEpost(rows, key) {
      var i, j :| 0 <= i < j < |rows| && LiveWith(rows[i], key) && LiveWith(rows[j], key);
      assert LiveWith(t[j - 1], key);
    }
    if exists j :: 0 <= j < |t| && LiveWith(t[j], key) {
      var j :| 0 <= j < |t| && LiveWith(t[j], key);
      assert LiveWith(rows[j + 1], key);
    }
  }

  /** A first row that does not hold the email plays no part in sharing. */
  lemma SharedWithoutHead(rows: seq<UserRow>, key: string)
    requires rows != [] && !LiveWith(rows[0], key)
    ensures SharedEpost(rows, key) <==> SharedEpost(rows[1..], key)
  {
    var t := rows[1..];
    if SharedEpost(t, key) {
      var i, j :| 0 <= i < j < |t| && LiveWith(t[i], key) && LiveWith(t[j], key);
      assert LiveWith(rows[i + 1], key) && LiveWith(rows[j + 1], key);
    }
    if SharedEpost(rows, key) {
      var i, j :| 0 <= i < j < |rows| && LiveWith(rows[i], key) && LiveWith(rows[j], key);
      assert LiveWith(t[i - 1], key) && LiveWith(t[j - 1], key);
    }
  }

  /** The query returns more than one row exactly when two live rows share
      the email. */
  lemma {:induction false} SeveralIffShared(rows: seq<UserRow>, key: string)
    ensures |WithEpost(rows, key)| >= 2 <==> SharedEpost(rows, key)
  {
    if rows != [] {
      var t := rows[1..];
      assert |WithEpost(rows, key)| == (if LiveWith(rows[0], key) then 1 else 0) + |WithEpost(t, key)|;
      if LiveWith(rows[0], key) {
        SomeIffLive(t, key);
        SharedWithHead(rows, key);
      } else {
        SeveralIffShared(t, key);
        SharedWithoutHead(rows, key);
      }
    }
  }

  /** `existsByEpost`: `COUNT(*) > 0` over the live rows with the
      lower-cased email. */
  function ExistsByEpost(rows: seq<UserRow>, epost: string): (r: bool)
    ensures r <==> exists u :: UserRow(u, false) in rows && u.epost == Lower(epost)
  {
    var matches := WithEpost(rows, Lower(epost));
    if |matches| > 0 then
      assert matches[0] in matches;
      true
    else false
  }

  /** `findByEpost`: `queryForObject` on the live rows with the lower-cased
      email: no row is null, one row is that user, and more than one throws. */
  function FindByEpost(rows: seq<UserRow>, epost: string): (r: Result<Option<User>, Exception>)
    ensures r == Success(None) <==> !ExistsByEpost(rows, epost)
    ensures r.Success? && r.value.Some? ==>
      UserRow(r.value.value, false) in rows && r.value.value.epost == Lower(epost)
    ensures r.Failure? <==> SharedEpost(rows, Lower(epost))
    ensures r.Failure? ==> r.error.IncorrectResultSize?
  {
    var matches := WithEpost(rows, Lower(epost));
    SeveralIffShared(rows, Lower(epost));
    if |matches| == 0 then Success(None)
    else if |matches| == 1 then
      assert matches[0] in matches;
      Success(Some(matches[0]))
    else Failure(IncorrectResultSize(|matches|))
  }

  /** A stored user is found by any spelling of its email that lower-cases
      to the stored one, the stored spelling included. */
  lemma StoredEmailFound(rows: seq<UserRow>, u: User, epost: string)
    requires UserRow(u, false) in rows && NormalForm(u)
    requires Lower(epost) == u.epost
    ensures ExistsByEpost(rows, epost) && ExistsByEpost(rows, u.epost)
  {
  }

  // ---------------------------------------------------------------------------
  // findAll: ORDER BY opprettet_dato DESC LIMIT ? OFFSET ?

  /** The live users, in table order. */
  function LiveUsers(rows: seq<UserRow>): (r: seq<User>)
    ensures forall u :: u in r <==> UserRow(u, false) in rows
  {
    if rows == [] then []
    else
      assert forall row :: row in rows ==> row == rows[0] || row in rows[1..];
      (if !rows[0].deleted then [rows[0].user] else []) + LiveUsers(rows[1..])
  }

  predicate CreatedNewestFirst(s: seq<User>) {
    forall i, j :: 0 <= i < j < |s| ==> s[i].opprettetDato >= s[j].opprettetDato
  }

  /** One user put before the first user not created later than it. */
  function InsertByCreated(u: User, s: seq<User>): seq<User> {
    if s == [] || u.opprettetDato >= s[0].opprettetDato then [u] + s
    else [s[0]] + InsertByCreated(u, s[1..])
  }

  /** Users created at the same instant keep the order insertion gives them. */
  function SortByCreated(s: seq<User>): seq<User> {
    if s == [] then [] else InsertByCreated(s[0], SortByCreated(s[1..]))
  }

  lemma PrependNewest(u: User, s: seq<User>)
    requires CreatedNewestFirst(s) && forall v :: v in s ==> u.opprettetDato >= v.opprettetDato
    ensures CreatedNewestFirst([u] + s)
  {
    var r := [u] + s;
    forall i, j | 0 <= i < j < |r| ensures r[i].opprettetDato >= r[j].opprettetDato {
      assert r[j] == s[j - 1] && s[j - 1] in s;
      if i > 0 {
        assert r[i] == s[i - 1];
      }
    }
  }

  lemma HeadNewestOfAll(s: seq<User>)
    requires CreatedNewestFirst(s) && s != []
    ensures forall v :: v in s ==> s[0].opprettetDato >= v.opprettetDato
  {
    forall v | v in s ensures s[0].opprettetDato >= v.opprettetDato {
      var j :| 0 <= j < |s| && s[j] == v;
    }
  }

  lemma NewestFirstTail(s: seq<User>)
    requires CreatedNewestFirst(s) && s != []
    ensures CreatedNewestFirst(s[1..])
  {
    var t := s[1..];
    forall i, j | 0 <= i < j < |t| ensures t[i].opprettetDato >= t[j].opprettetDato {
      assert t[i] == s[i + 1] && t[j] == s[j + 1];
    }
  }

  lemma {:induction false} InsertByCreatedKeepsOrder(u: User, s: seq<User>)
    requires CreatedNewestFirst(s)
    ensures CreatedNewestFirst(InsertByCreated(u, s))
    ensures multiset(InsertByCreated(u, s)) == multiset(s) + multiset{u}
  {
    if s == [] || u.opprettetDato >= s[0].opprettetDato {
      if s != [] {
        HeadNewestOfAll(s);
      }
      PrependNewest(u, s);
    } else {
      HeadNewestOfAll(s);
      NewestFirstTail(s);
      InsertByCreatedKeepsOrder(u, s[1..]);
      var rest := InsertByCreated(u, s[1..]);
      assert s == [s[0]] + s[1..];
      forall v | v in rest ensures s[0].opprettetDato >= v.opprettetDato {
        assert v in multiset(rest);
        assert v == u || v in s[1..];
      }
      PrependNewest(s[0], rest);
    }
  }

  /** The sort orders newest first and keeps every user. */
  lemma {:induction false} SortByCreatedSorts(s: seq<User>)
    ensures CreatedNewestFirst(SortByCreated(s))
    ensures multiset(SortByCreated(s)) == multiset(s)
  {
    if s != [] {
      SortByCreatedSorts(s[1..]);
      InsertByCreatedKeepsOrder(s[0], SortByCreated(s[1..]));
      assert s == [s[0]] + s[1..];
    }
  }

  /** `LIMIT ? OFFSET ?`; a negative count is read as 0. */
  function LimitOffset(s: seq<User>, limit: int, offset: int): (r: seq<User>)
    ensures var from := if offset < 0 then 0 else offset;
      && |r| == (if from >= |s| || limit <= 0 then 0 else if limit < |s| - from then limit else |s| - from)
      && forall i :: 0 <= i < |r| ==> r[i] == s[from + i]
  {
    var from := if offset < 0 then 0 else if offset > |s| then |s| else offset;
    var n := if limit < 0 then 0 else if from + limit > |s| then |s| - from else limit;
    s[from..from + n]
  }

  /** `findAll(limit, offset)`: at most `limit` users, newest first. */
  function FindAll(rows: seq<UserRow>, limit: Int32, offset: Int32): (r: seq<User>)
    ensures |r| <= (if limit < 0 then 0 else limit as int)
    ensures CreatedNewestFirst(r)
  {
    SortByCreatedSorts(LiveUsers(rows));
    WindowOfSorted(SortByCreated(LiveUsers(rows)), limit as int, offset as int);
    LimitOffset(SortByCreated(LiveUsers(rows)), limit, offset)
  }

  /** Two windows side by side are the window that spans both: paging
      through the users skips and repeats nobody. */
  lemma PagesTile(s: seq<User>, a: nat, b: nat, offset: nat)
    ensures LimitOffset(s, a, offset) + LimitOffset(s, b, offset + a) == LimitOffset(s, a + b, offset)
  {
    var x, y, z := LimitOffset(s, a, offset), LimitOffset(s, b, offset + a), LimitOffset(s, a + b, offset);
    assert |x + y| == |z|;
    forall i | 0 <= i < |z| ensures (x + y)[i] == z[i] {
      if i >= |x| {
        assert (x + y)[i] == y[i - |x|];
      }
    }
  }

  /** A window of a newest-first sequence is newest first and holds only
      elements of it. */
  lemma WindowOfSorted(s: seq<User>, limit: int, offset: int)
    requires CreatedNewestFirst(s)
    ensures var r := LimitOffset(s, limit, offset);
      && |r| <= (if limit < 0 then 0 else limit)
      && CreatedNewestFirst(r)
      && forall u :: u in r ==> u in s
  {
    var from := if offset < 0 then 0 else offset;
    var r := LimitOffset(s, limit, offset);
    forall i, j | 0 <= i < j < |r| ensures r[i].opprettetDato >= r[j].opprettetDato {
      assert r[i] == s[from + i] && r[j] == s[from + j];
    }
    forall u | u in r ensures u in s {
      var i :| 0 <= i < |r| && r[i] == u;
      assert s[from + i] == u;
    }
  }

  /** `findAll` returns at most `limit` live users, newest first. */
  lemma FindAllReturnsNewestLive(rows: seq<UserRow>, limit: Int32, offset: Int32)
    ensures var r := FindAll(rows, limit, offset);
      && |r| <= (if limit < 0 then 0 else limit as int)
      && CreatedNewestFirst(r)
      && forall u :: u in r ==> UserRow(u, false) in rows
  {
    var live := LiveUsers(rows);
    SortByCreatedSorts(live);
    var sorted := SortByCreated(live);
    WindowOfSorted(sorted, limit as int, offset as int);
    forall u | u in sorted ensures u in live {
      assert u in multiset(sorted);
    }
  }

  /** A window that starts at 0 and is at least as large as the table
      returns every live user, each as often as it is stored. */
  lemma FindAllEveryLiveUser(rows: seq<UserRow>, limit: Int32)
    requires limit as int >= |rows|
    ensures multiset(FindAll(rows, limit, 0)) == multiset(LiveUsers(rows))
  {
    var live := LiveUsers(rows);
    SortByCreatedSorts(live);
    LiveUsersShorter(rows);
    var sorted := SortByCreated(live);
    assert |sorted| == |multiset(sorted)| == |live|;
    assert LimitOffset(sorted, limit as int, 0) == sorted[0..|sorted|] == sorted;
  }

  lemma {:induction false} LiveUsersShorter(rows: seq<UserRow>)
    ensures |LiveUsers(rows)| <= |rows|
  {
    if rows != [] {
      LiveUsersShorter(rows[1..]);
    }
  }

  // ---------------------------------------------------------------------------
  // Writes

  /** The update's `WHERE user_id = ? AND version = ?`: the deleted flag is
      not consulted. */
  predicate VersionMatches(row: UserRow, id: int, version: int) {
    row.user.userId == id && row.user.version == version
  }

  /** The table after the versioned update of `user`. */
  function UpdateRows(rows: seq<UserRow>, user: User, now: Timestamp): (r: seq<UserRow>)
    ensures |r| == |rows|
    ensures forall i :: 0 <= i < |rows| ==>
      && r[i].deleted == rows[i].deleted && r[i].user.userId == rows[i].user.userId
      && r[i].user.opprettetDato == rows[i].user.opprettetDato
    ensures forall i :: 0 <= i < |rows| && VersionMatches(rows[i], user.userId, user.version) ==>
      r[i].user.version == rows[i].user.version + 1 && r[i].user.sistEndret == now
    ensures forall i :: 0 <= i < |rows| && !VersionMatches(rows[i], user.userId, user.version) ==> r[i] == rows[i]
  {
    seq(|rows|, i requires 0 <= i < |rows| =>
      if VersionMatches(rows[i], user.userId, user.version)
      then rows[i].(user := Rewritten(rows[i].user, user, now))
      else rows[i])
  }

  /** The number of rows the versioned update changes. */
  function CountMatches(rows: seq<UserRow>, id: int, version: int): nat {
    if rows == [] then 0
    else (if VersionMatches(rows[0], id, version) then 1 else 0) + CountMatches(rows[1..], id, version)
  }

  /** No row changed iff no row has that id and version. */
  lemma {:induction false} CountMatchesZero(rows: seq<UserRow>, id: int, version: int)
    ensures CountMatches(rows, id, version) == 0 <==>
      forall i :: 0 <= i < |rows| ==> !VersionMatches(rows[i], id, version)
  {
    if rows != [] {
      CountMatchesZero(rows[1..], id, version);
      if CountMatches(rows, id, version) == 0 {
        forall i | 0 <= i < |rows| ensures !VersionMatches(rows[i], id, version) {
          if i > 0 {
            assert rows[i] == rows[1..][i - 1];
          }
        }
      } else if !VersionMatches(rows[0], id, version) {
        var i :| 0 <= i < |rows[1..]| && VersionMatches(rows[1..][i], id, version);
        assert rows[i + 1] == rows[1..][i];
      }
    }
  }

  /** An update that matches no row leaves the table as it was. */
  lemma NoMatchNoChange(rows: seq<UserRow>, user: User, now: Timestamp)
    requires forall i :: 0 <= i < |rows| ==> !VersionMatches(rows[i], user.userId, user.version)
    ensures UpdateRows(rows, user, now) == rows
  {
  }

  /** The row a successful update rewrote holds what `save` returns, but for
      the creation time: the row keeps its own, the returned copy keeps the
      caller's. */
  lemma UpdatedRowIsReturned(rows: seq<UserRow>, user: User, now: Timestamp, i: int)
    requires 0 <= i < |rows| && VersionMatches(rows[i], user.userId, user.version)
    ensures UpdateRows(rows, user, now)[i].user == Updated(user, now).(opprettetDato := rows[i].user.opprettetDato)
    ensures UpdateRows(rows, user, now)[i].deleted == rows[i].deleted
  {
  }

  /** `delete`: `SET deleted = 1 WHERE user_id = ? AND deleted = 0`. */
  function SoftDeleteRows(rows: seq<UserRow>, id: int): (r: seq<UserRow>)
    ensures |r| == |rows|
    ensures forall i :: 0 <= i < |rows| ==>
      r[i].user == rows[i].user && r[i].deleted == (rows[i].deleted || rows[i].user.userId == id)
  {
    seq(|rows|, i requires 0 <= i < |rows| =>
      if rows[i].user.userId == id && !rows[i].deleted then rows[i].(deleted := true) else rows[i])
  }

  /** After the delete, no lookup sees the user: `findById` gives null, and
      an email is found only through another live user. */
  lemma DeletedUserGone(rows: seq<UserRow>, id: int, epost: string)
    ensures FindById(SoftDeleteRows(rows, id), id).None?
    ensures ExistsByEpost(SoftDeleteRows(rows, id), epost) <==>
      exists u :: UserRow(u, false) in rows && u.userId != id && u.epost == Lower(epost)
  {
    var r := SoftDeleteRows(rows, id);
    forall row | row in r ensures row.deleted || row.user.userId != id {
      var i :| 0 <= i < |r| && r[i] == row;
    }
    if ExistsByEpost(r, epost) {
      var u :| UserRow(u, false) in r && u.epost == Lower(epost);
      var i :| 0 <= i < |r| && r[i] == UserRow(u, false);
      assert rows[i] in rows;
    }
    if exists u :: UserRow(u, false) in rows && u.userId != id && u.epost == Lower(epost) {
      var u :| UserRow(u, false) in rows && u.userId != id && u.epost == Lower(epost);
      var i :| 0 <= i < |rows| && rows[i] == UserRow(u, false);
      assert r[i] in r;
    }
  }

  /** Every id is in [1, bound) and no two rows share one. */
  predicate IdsBelow(rows: seq<UserRow>, bound: int) {
    && (forall row :: row in rows ==> 1 <= row.user.userId < bound)
    && (forall i, j :: 0 <= i < j < |rows| ==> rows[i].user.userId != rows[j].user.userId)
  }

  /** With unique ids an update or a delete changes at most one row. */
  lemma {:induction false} AtMostOneMatch(rows: seq<UserRow>, bound: int, id: int, version: int)
    requires IdsBelow(rows, bound)
    ensures CountMatches(rows, id, version) <= 1
  {
    if rows != [] {
      var t := rows[1..];
      assert IdsBelow(t, bound) by {
        forall row | row in t ensures 1 <= row.user.userId < bound {
          assert row in rows;
        }
        forall i, j | 0 <= i < j < |t| ensures t[i].user.userId != t[j].user.userId {
          assert t[i] == rows[i + 1] && t[j] == rows[j + 1];
        }
      }
      AtMostOneMatch(t, bound, id, version);
      if VersionMatches(rows[0], id, version) {
        CountMatchesZero(t, id, version);
        forall i | 0 <= i < |t| ensures !VersionMatches(t[i], id, version) {
          assert t[i] == rows[i + 1];
        }
      }
    }
  }

  /** Every stored row is in normal form. */
  predicate AllNormal(rows: seq<UserRow>) {
    forall row :: row in rows ==> NormalForm(row.user)
  }

  lemma UpdateKeepsTable(rows: seq<UserRow>, user: User, now: Timestamp, bound: int)
    requires IdsBelow(rows, bound) && AllNormal(rows)
    ensures IdsBelow(UpdateRows(rows, user, now), bound) && AllNormal(UpdateRows(rows, user, now))
  {
    var r := UpdateRows(rows, user, now);
    forall row | row in r ensures 1 <= row.user.userId < bound && NormalForm(row.user) {
      var i :| 0 <= i < |r| && r[i] == row;
      assert rows[i] in rows;
      SavedInNormalForm(user, rows[i].user, 0, now);
    }
  }

  lemma DeleteKeepsTable(rows: seq<UserRow>, id: int, bound: int)
    requires IdsBelow(rows, bound) && AllNormal(rows)
    ensures IdsBelow(SoftDeleteRows(rows, id), bound) && AllNormal(SoftDeleteRows(rows, id))
  {
    var r := SoftDeleteRows(rows, id);
    forall row | row in r ensures 1 <= row.user.userId < bound && NormalForm(row.user) {
      var i :| 0 <= i < |r| && r[i] == row;
      assert rows[i] in rows;
    }
  }

  lemma InsertKeepsTable(rows: seq<UserRow>, u: User, bound: int)
    requires IdsBelow(rows, bound) && AllNormal(rows) && NormalForm(u) && u.userId == bound >= 1
    ensures IdsBelow(rows + [UserRow(u, false)], bound + 1) && AllNormal(rows + [UserRow(u, false)])
  {
    var r := rows + [UserRow(u, false)];
    forall row | row in r ensures 1 <= row.user.userId < bound + 1 && NormalForm(row.user) {
      if row != UserRow(u, false) {
        assert row in rows;
      }
    }
    forall i, j | 0 <= i < j < |r| ensures r[i].user.userId != r[j].user.userId {
      assert r[i] == rows[i] && rows[i] in rows;
      if j < |rows| {
        assert r[j] == rows[j];
      }
    }
  }

  class UserRepository {
    var rows: seq<UserRow>
    var nextId: int   // users_seq

    predicate Valid()
      reads this
    {
      nextId >= 1 && IdsBelow(rows, nextId) && AllNormal(rows)
    }

    constructor()
      ensures Valid() && rows == []
    {
      rows := [];
      nextId := 1;
    }

    /** `save`: insert a user whose id is 0, otherwise update the row with
        its id and version; an update that matched no row throws. */
    method Save(user: User, now: Timestamp) returns (r: Result<User, Exception>)
      requires Valid()
      modifies this
      ensures Valid()
      ensures user.userId == 0 ==>
        && r == Success(Inserted(user, old(nextId), now))
        && rows == old(rows) + [UserRow(r.value, false)]
        && forall row :: row in old(rows) ==> row.user.userId != r.value.userId
      ensures user.userId != 0 && !(exists i :: 0 <= i < |old(rows)| && VersionMatches(old(rows)[i], user.userId, user.version)) ==>
        r == Failure(IllegalState(MsgStaleUser)) && rows == old(rows)
      ensures user.userId != 0 && (exists i :: 0 <= i < |old(rows)| && VersionMatches(old(rows)[i], user.userId, user.version)) ==>
        r == Success(Updated(user, now)) && rows == UpdateRows(old(rows), user, now)
    {
      if user.userId == 0 {
        var saved := Inserted(user, nextId, now);
        SavedInNormalForm(user, user, nextId, now);
        InsertKeepsTable(rows, saved, nextId);
        rows := rows + [UserRow(saved, false)];
        nextId := nextId + 1;
        return Success(saved);
      }
      var rowsUpdated := CountMatches(rows, user.userId, user.version);
      CountMatchesZero(rows, user.userId, user.version);
      UpdateKeepsTable(rows, user, now, nextId);
      if rowsUpdated == 0 {
        NoMatchNoChange(rows, user, now);
      }
      rows := UpdateRows(rows, user, now);
      if rowsUpdated == 0 {
        return Failure(IllegalState(MsgStaleUser));
      }
      r := Success(Updated(user, now));
    }

    /** `delete`: soft-delete the live user with this id; true iff there was one. */
    method Delete(id: int) returns (deleted: bool)
      requires Valid()
      modifies this
      ensures Valid()
      ensures rows == SoftDeleteRows(old(rows), id) && nextId == old(nextId)
      ensures deleted <==> FindById(old(rows), id).Some?
    {
      deleted := exists i :: 0 <= i < |rows| && !rows[i].deleted && rows[i].user.userId == id;
      if deleted {
        var i :| 0 <= i < |rows| && !rows[i].deleted && rows[i].user.userId == id;
        assert rows[i] in rows;
      }
      DeleteKeepsTable(rows, id, nextId);
      rows := SoftDeleteRows(rows, id);
    }
  }
}
