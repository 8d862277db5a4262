/**
 * The `Role` and `GradeLevel` enumerations and the field constraints that
 * the class-validator decorators put on a user-creation request body.
 */
module UserDto {
  import opened Wrappers

  datatype Role = Admin | Teacher | Student | Parent

  /** The enum value as stored and sent over the wire. */
  function RoleName(r: Role): string
  {
    match r
    case Admin => "ADMIN"
    case Teacher => "TEACHER"
    case Student => "STUDENT"
    case Parent => "PARENT"
  }

  /** `@IsEnum(Role)`: the role whose wire value is `s`, if there is one. */
  function ParseRole(s: string): (r: Option<Role>)
    ensures r.Some? ==> RoleName(r.value) == s
  {
    if s == "ADMIN" then Some(Admin)
    else if s == "TEACHER" then Some(Teacher)
    else if s == "STUDENT" then Some(Student)
    else if s == "PARENT" then Some(Parent)
    else None
  }

  /** Every role's wire value is accepted and decodes to that role. */
  lemma ParseRoleName(r: Role)
    ensures ParseRole(RoleName(r)) == Some(r)
  {
  }

  /** Exactly the four wire values are accepted. */
  lemma ParseRoleAccepts(s: string)
    ensures ParseRole(s).Some? <==> s in {"ADMIN", "TEACHER", "STUDENT", "PARENT"}
  {
  }

  /** GRADE_1 … GRADE_12, by number. */
  type GradeLevel = g: int | 1 <= g <= 12 witness 1

  const GradePrefix: string := "GRADE_"

  /** The decimal digits of a grade number, without leading zero. */
  function GradeDigits(g: GradeLevel): (d: string)
    ensures |d| == (if g < 10 then 1 else 2)
    ensures forall i :: 0 <= i < |d| ==> '0' <= d[i] <= '9'
    ensures d[0] != '0'
  {
    if g < 10 then [('0' as int + g) as char]
    else ['1', ('0' as int + g - 10) as char]
  }

  /** The enum value as stored and sent over the wire: `GRADE_<n>`. */
  function GradeName(g: GradeLevel): (s: string)
    ensures |s| == |GradePrefix| + |GradeDigits(g)|
    ensures s[..|GradePrefix|] == GradePrefix
  {
    GradePrefix + GradeDigits(g)
  }

  lemma GradeNameInjective(g: GradeLevel, h: GradeLevel)
    ensures GradeName(g) == GradeName(h) <==> g == h
  {
    if GradeName(g) == GradeName(h) {
      assert GradeDigits(g) == GradeName(g)[|GradePrefix|..];
      assert GradeDigits(h) == GradeName(h)[|GradePrefix|..];
    }
  }

  /** Searches the grades from `from` upwards for the one named `s`. */
  function FindGrade(s: string, from: int): (r: Option<GradeLevel>)
    requires 1 <= from <= 13
    ensures r.Some? ==> from <= r.value && GradeName(r.value) == s
    ensures r.None? ==> forall g: GradeLevel :: from <= g ==> GradeName(g) != s
    decreases 13 - from
  {
    if from == 13 then None
    else if GradeName(from) == s then Some(from)
    else FindGrade(s, from + 1)
  }

  /** `@IsEnum(GradeLevel)`: the grade whose wire value is `s`, if there is one. */
  function ParseGrade(s: string): (r: Option<GradeLevel>)
    ensures r.Some? ==> GradeName(r.value) == s
    ensures r.None? <==> forall g: GradeLevel :: GradeName(g) != s
  {
    FindGrade(s, 1)
  }

  /** Every grade's wire value is accepted and decodes to that grade. */
  lemma ParseGradeName(g: GradeLevel)
    ensures ParseGrade(GradeName(g)) == Some(g)
  {
    var r := ParseGrade(GradeName(g));
    GradeNameInjective(r.value, g);
  }

  /** The JSON body of a user-creation request, before validation. */
  datatype CreateUserBody = CreateUserBody(
    username: string,
    email: Option<string>,
    password: string,
    role: string,
    firstName: string,
    lastName: string,
    gradeLevel: Option<string>,
    rfidCard: Option<string>,
    photoUrl: Option<string>)

  const MinPasswordLength: int := 6

  /**
   * The decorators of `CreateUserDto`. `@IsOptional` skips the other checks of a
   * field only when it is missing; `isEmail` stands for class-validator's
   * `@IsEmail` format test.
   */
  function ValidCreateUser(b: CreateUserBody, isEmail: string -> bool): (ok: bool)
    ensures ok ==> b.role in {"ADMIN", "TEACHER", "STUDENT", "PARENT"}
    ensures ok && b.gradeLevel.Some? ==> exists g: GradeLevel :: GradeName(g) == b.gradeLevel.value
  {
    ParseRoleAccepts(b.role);
    && |b.username| > 0
    && (b.email.Some? ==> isEmail(b.email.value))
    && |b.password| >= MinPasswordLength
    && ParseRole(b.role).Some?
    && |b.firstName| > 0
    && |b.lastName| > 0
    && (b.gradeLevel.Some? ==> ParseGrade(b.gradeLevel.value).Some?)
  }

  /** A request body that passed validation, with its enums decoded. */
  datatype CreateUserDto = CreateUserDto(
    username: string,
    email: Option<string>,
    password: string,
    role: Role,
    firstName: string,
    lastName: string,
    gradeLevel: Option<GradeLevel>,
    rfidCard: Option<string>,
    photoUrl: Option<string>)

  /** The validation pipe: rejects a body that breaks a constraint, decodes one that does not. */
  function Validate(b: CreateUserBody, isEmail: string -> bool): (r: Option<CreateUserDto>)
    ensures r.Some? <==> ValidCreateUser(b, isEmail)
    ensures r.Some? ==>
      && r.value.username == b.username && r.value.email == b.email
      && r.value.password == b.password && RoleName(r.value.role) == b.role
      && r.value.firstName == b.firstName && r.value.lastName == b.lastName
      && (r.value.gradeLevel.Some? <==> b.gradeLevel.Some?)
      && (r.value.gradeLevel.Some? ==> GradeName(r.value.gradeLevel.value) == b.gradeLevel.value)
      && r.value.rfidCard == b.rfidCard && r.value.photoUrl == b.photoUrl
  {
    if !ValidCreateUser(b, isEmail) then None
    else
      var grade := if b.gradeLevel.Some? then Some(ParseGrade(b.gradeLevel.value).value) else None;
      Some(CreateUserDto(b.username, b.email, b.password, ParseRole(b.role).value,
                         b.firstName, b.lastName, grade, b.rfidCard, b.photoUrl))
  }

  /** The password constraint is the length bound and nothing else: a body is accepted with `p` in place of its password exactly when `p` has at least six characters. */
  lemma PasswordLength(b: CreateUserBody, isEmail: string -> bool, p: string)
    requires ValidCreateUser(b, isEmail)
    ensures ValidCreateUser(b.(password := p), isEmail) <==> |p| >= MinPasswordLength
  {
  }

  /** A missing grade level and a missing e-mail are accepted; an unknown grade name is not. */
  lemma OptionalFields(b: CreateUserBody, isEmail: string -> bool)
    requires ValidCreateUser(b, isEmail)
    ensures ValidCreateUser(b.(gradeLevel := None, email := None, rfidCard := None, photoUrl := None), isEmail)
    ensures !ValidCreateUser(b.(gradeLevel := Some("GRADE_13")), isEmail)
    ensures !ValidCreateUser(b.(gradeLevel := Some("GRADE_0")), isEmail)
    ensures ValidCreateUser(b.(gradeLevel := Some("GRADE_12")), isEmail)
  {
    ParseGradeName(12);
    forall g: GradeLevel ensures GradeName(g) != "GRADE_13" && GradeName(g) != "GRADE_0" {
      assert GradeName(g)[|GradePrefix|..] == GradeDigits(g);
      assert "GRADE_13"[|GradePrefix|..] == "13";
    }
  }
}
