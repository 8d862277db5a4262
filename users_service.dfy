/**
 * The pure parts of the user service: how `create` defaults missing optional
 * fields to `null`, how `update` builds its patch of changed columns, and the
 * per-role totals of `getStats`. The `users` table is a sequence of rows.
 */
module Users {
  import opened Wrappers
  import opened UserDto

  /** A row of the `users` table; `password` holds the bcrypt hash. */
  datatype User = User(
    id: string,
    username: string,
    email: Option<string>,
    password: string,
    role: Role,
    firstName: string,
    lastName: string,
    gradeLevel: Option<GradeLevel>,
    rfidCard: Option<string>,
    photoUrl: Option<string>)

  /** JavaScript falsiness of an optional string: missing or empty. */
  predicate Falsy(o: Option<string>)
  {
    o.None? || o.value == ""
  }

  /** `value || null`. */
  function OrNull(o: Option<string>): (r: Option<string>)
    ensures r.None? <==> Falsy(o)
    ensures r.Some? ==> r == o
  {
    if Falsy(o) then None else o
  }

  /**
   * The row that `create` inserts for a validated request, given the new id
   * and the hash of the password. A falsy e-mail, RFID card or photo URL is
   * stored as `null`; a grade level, being an enum value, is never falsy.
   */
  function NewUserRow(id: string, dto: CreateUserDto, hashedPassword: string): (u: User)
    ensures u.id == id && u.username == dto.username && u.role == dto.role
    ensures u.firstName == dto.firstName && u.lastName == dto.lastName
    ensures u.password == hashedPassword
    ensures u.gradeLevel == dto.gradeLevel
    ensures Falsy(dto.email) ==> u.email.None?
    ensures !Falsy(dto.email) ==> u.email == dto.email
    ensures Falsy(dto.rfidCard) ==> u.rfidCard.None?
    ensures !Falsy(dto.rfidCard) ==> u.rfidCard == dto.rfidCard
    ensures Falsy(dto.photoUrl) ==> u.photoUrl.None?
    ensures !Falsy(dto.photoUrl) ==> u.photoUrl == dto.photoUrl
  {
    User(id, dto.username, OrNull(dto.email), hashedPassword, dto.role,
         dto.firstName, dto.lastName, dto.gradeLevel, OrNull(dto.rfidCard), OrNull(dto.photoUrl))
  }

  /** A created row never holds an empty string in an optional column. */
  lemma NewUserRowHasNoEmptyOptionals(id: string, dto: CreateUserDto, hashedPassword: string)
    ensures NewUserRow(id, dto, hashedPassword).email != Some("")
    ensures NewUserRow(id, dto, hashedPassword).rfidCard != Some("")
    ensures NewUserRow(id, dto, hashedPassword).photoUrl != Some("")
  {
  }

  /** A field of a partial update body: `undefined`, `null`, or a value. */
  datatype Field<T> = Missing | Null | Given(value: T)

  /** A partial `CreateUserDto`, as `update` receives it. */
  datatype UpdateUserDto = UpdateUserDto(
    username: Field<string>,
    email: Field<string>,
    password: Field<string>,
    role: Field<Role>,
    firstName: Field<string>,
    lastName: Field<string>,
    gradeLevel: Field<GradeLevel>,
    rfidCard: Field<string>,
    photoUrl: Field<string>)

  /** JavaScript truthiness of a string field: given and not empty. */
  predicate Truthy(f: Field<string>)
  {
    f.Given? && f.value != ""
  }

  /** A supplied nullable field's value: `null` stays `null`. */
  function Nullable<T>(f: Field<T>): (v: Option<T>)
    requires !f.Missing?
    ensures v.None? <==> f.Null?
    ensures f.Given? ==> v == Some(f.value)
  {
    if f.Null? then None else Some(f.value)
  }

  /**
   * The `data` object passed to `prisma.user.update`: one optional key per
   * column. `None` means the key is absent; for a nullable column, `Some(None)`
   * means the key is present with value `null`.
   */
  datatype UserPatch = UserPatch(
    username: Option<string>,
    email: Option<Option<string>>,
    password: Option<string>,
    role: Option<Role>,
    firstName: Option<string>,
    lastName: Option<string>,
    gradeLevel: Option<Option<GradeLevel>>,
    rfidCard: Option<Option<string>>,
    photoUrl: Option<Option<string>>)

  /**
   * The patch `update` builds, key by key: username, first and last name, role
   * and password only when truthy; e-mail, grade level, RFID card and photo URL
   * whenever they are not `undefined`. The password goes in as `hash` of it.
   */
  function UpdatePatch(u: UpdateUserDto, hash: string -> string): (p: UserPatch)
    ensures p.username.Some? <==> Truthy(u.username)
    ensures p.firstName.Some? <==> Truthy(u.firstName)
    ensures p.lastName.Some? <==> Truthy(u.lastName)
    ensures p.role.Some? <==> u.role.Given?
    ensures p.password.Some? <==> Truthy(u.password)
    ensures p.password.Some? ==> p.password.value == hash(u.password.value)
    ensures p.email.None? <==> u.email.Missing?
    ensures p.gradeLevel.None? <==> u.gradeLevel.Missing?
    ensures p.rfidCard.None? <==> u.rfidCard.Missing?
    ensures p.photoUrl.None? <==> u.photoUrl.Missing?
  {
    UserPatch(
      username := if Truthy(u.username) then Some(u.username.value) else None,
      email := if u.email.Missing? then None else Some(Nullable(u.email)),
      password := if Truthy(u.password) then Some(hash(u.password.value)) else None,
      role := if u.role.Given? then Some(u.role.value) else None,
      firstName := if Truthy(u.firstName) then Some(u.firstName.value) else None,
      lastName := if Truthy(u.lastName) then Some(u.lastName.value) else None,
      gradeLevel := if u.gradeLevel.Missing? then None else Some(Nullable(u.gradeLevel)),
      rfidCard := if u.rfidCard.Missing? then None else Some(Nullable(u.rfidCard)),
      photoUrl := if u.photoUrl.Missing? then None else Some(Nullable(u.photoUrl)))
  }

  const EmptyPatch: UserPatch := UserPatch(None, None, None, None, None, None, None, None, None)

  /** `update`'s construction of `data`, one conditional assignment per field. */
  method BuildUpdateData(u: UpdateUserDto, hash: string -> string) returns (data: UserPatch)
    ensures data == UpdatePatch(u, hash)
  {
    data := EmptyPatch;
    if Truthy(u.username) { data := data.(username := Some(u.username.value)); }
    if !u.email.Missing? { data := data.(email := Some(Nullable(u.email))); }
    if Truthy(u.firstName) { data := data.(firstName := Some(u.firstName.value)); }
    if Truthy(u.lastName) { data := data.(lastName := Some(u.lastName.value)); }
    if u.role.Given? { data := data.(role := Some(u.role.value)); }
    if !u.gradeLevel.Missing? { data := data.(gradeLevel := Some(Nullable(u.gradeLevel))); }
    if !u.rfidCard.Missing? { data := data.(rfidCard := Some(Nullable(u.rfidCard))); }
    if !u.photoUrl.Missing? { data := data.(photoUrl := Some(Nullable(u.photoUrl))); }
    if Truthy(u.password) {
      data := data.(password := Some(hash(u.password.value)));
    }
  }

  /** The key rules: an empty string or `null` is skipped for the truthy-tested keys, and written for the others. */
  lemma UpdatePatchEmptyValues(u: UpdateUserDto, hash: string -> string)
    requires u.username == Given("") && u.firstName == Null && u.password == Given("")
    requires u.email == Given("") && u.rfidCard == Null && u.gradeLevel == Null
    ensures UpdatePatch(u, hash).username.None?
    ensures UpdatePatch(u, hash).firstName.None?
    ensures UpdatePatch(u, hash).password.None?
    ensures UpdatePatch(u, hash).email == Some(Some(""))
    ensures UpdatePatch(u, hash).rfidCard == Some(None)
    ensures UpdatePatch(u, hash).gradeLevel == Some(None)
  {
  }

  /** An empty update body produces an empty patch. */
  lemma UpdatePatchOfEmptyBody(hash: string -> string)
    ensures UpdatePatch(UpdateUserDto(Missing, Missing, Missing, Missing, Missing, Missing, Missing, Missing, Missing), hash) == EmptyPatch
  {
  }

  function Patched<T>(key: Option<T>, old_: T): T
  {
    if key.Some? then key.value else old_
  }

  /** The row after `prisma.user.update({ where: { id }, data })`: present keys overwrite, absent keys keep. */
  function ApplyPatch(user: User, data: UserPatch): User
  {
    User(
      user.id,
      Patched(data.username, user.username),
      Patched(data.email, user.email),
      Patched(data.password, user.password),
      Patched(data.role, user.role),
      Patched(data.firstName, user.firstName),
      Patched(data.lastName, user.lastName),
      Patched(data.gradeLevel, user.gradeLevel),
      Patched(data.rfidCard, user.rfidCard),
      Patched(data.photoUrl, user.photoUrl))
  }

  /**
   * What `update` does to a row: a field left `undefined` in the body keeps its
   * value, so does a falsy username, name or password; every other supplied
   * field takes the supplied value (`null` clears a nullable column), and a new
   * password is stored only as its hash.
   */
  lemma UpdateChangesOnlySupplied(user: User, u: UpdateUserDto, hash: string -> string)
    ensures ApplyPatch(user, UpdatePatch(u, hash)).id == user.id
    ensures ApplyPatch(user, UpdatePatch(u, hash)).username == if Truthy(u.username) then u.username.value else user.username
    ensures ApplyPatch(user, UpdatePatch(u, hash)).firstName == if Truthy(u.firstName) then u.firstName.value else user.firstName
    ensures ApplyPatch(user, UpdatePatch(u, hash)).lastName == if Truthy(u.lastName) then u.lastName.value else user.lastName
    ensures ApplyPatch(user, UpdatePatch(u, hash)).role == if u.role.Given? then u.role.value else user.role
    ensures ApplyPatch(user, UpdatePatch(u, hash)).password == if Truthy(u.password) then hash(u.password.value) else user.password
    ensures ApplyPatch(user, UpdatePatch(u, hash)).email == if u.email.Missing? then user.email else Nullable(u.email)
    ensures ApplyPatch(user, UpdatePatch(u, hash)).gradeLevel == if u.gradeLevel.Missing? then user.gradeLevel else Nullable(u.gradeLevel)
    ensures ApplyPatch(user, UpdatePatch(u, hash)).rfidCard == if u.rfidCard.Missing? then user.rfidCard else Nullable(u.rfidCard)
    ensures ApplyPatch(user, UpdatePatch(u, hash)).photoUrl == if u.photoUrl.Missing? then user.photoUrl else Nullable(u.photoUrl)
  {
  }

  /** Unlike `create`, `update` stores an empty RFID card string, so the row can then be found by the empty card. */
  lemma UpdateKeepsEmptyCard(user: User, u: UpdateUserDto, hash: string -> string)
    requires u.rfidCard == Given("")
    ensures ApplyPatch(user, UpdatePatch(u, hash)).rfidCard == Some("")
  {
  }

  /** The number of rows whose role is `r`: `prisma.user.count({ where: { role } })`. */
  function CountRole(users: seq<User>, r: Role): (n: nat)
    ensures n <= |users|
  {
    if users == [] then 0
    else (if users[0].role == r then 1 else 0) + CountRole(users[1..], r)
  }

  datatype UserStats = UserStats(admins: nat, teachers: nat, students: nat, parents: nat, total: nat)

  /** `getStats`: the per-role counts and their sum. */
  function GetStats(users: seq<User>): (s: UserStats)
    ensures s.admins == CountRole(users, Admin) && s.teachers == CountRole(users, Teacher)
    ensures s.students == CountRole(users, Student) && s.parents == CountRole(users, Parent)
    ensures s.total == s.admins + s.teachers + s.students + s.parents == |users|
  {
    RoleCountsPartition(users);
    var admins := CountRole(users, Admin);
    var teachers := CountRole(users, Teacher);
    var students := CountRole(users, Student);
    var parents := CountRole(users, Parent);
    UserStats(admins, teachers, students, parents, admins + teachers + students + parents)
  }

  /** Every user has exactly one of the four roles, so the four counts partition the table. */
  lemma {:induction false} RoleCountsPartition(users: seq<User>)
    ensures CountRole(users, Admin) + CountRole(users, Teacher)
          + CountRole(users, Student) + CountRole(users, Parent) == |users|
  {
    if users != [] {
      RoleCountsPartition(users[1..]);
    }
  }

  /** `getStats().total` is the number of users. */
  lemma StatsTotalIsUserCount(users: seq<User>)
    ensures GetStats(users).total == |users|
  {
    RoleCountsPartition(users);
  }
}
