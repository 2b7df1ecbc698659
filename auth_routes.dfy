/**
  * The account handlers: registration (validation, unique id, department
  * enrolment, save), login, and the profile update.
  */
module AuthRoutes {
  import opened Base
  import opened UserModel
  import opened CourseModel
  import opened Database

  /**
    * `generateUniqueId(role)`: "B" for a student and "S" for any other role,
    * then `Math.floor(10000 + Math.random() * 90000)`; `draw` stands for
    * `Math.floor(Math.random() * 90000)`, so the number is `10000 + draw`.
    */
  function GenerateUniqueId(role: string, draw: nat): (id: string)
    requires draw < 90000
    ensures |id| == 6 && id[0] == (if role == "student" then 'B' else 'S')
    ensures AllDigits(id[1..]) && NumeralValue(id[1..]) == 10000 + draw
    ensures 10000 <= NumeralValue(id[1..]) <= 99999
  {
    assert Pow10(4) == 10000 && Pow10(5) == 100000;
    NumeralLength(10000 + draw, 5);
    NumeralRoundTrip(10000 + draw);
    var prefix := if role == "student" then 'B' else 'S';
    assert ([prefix] + Numeral(10000 + draw))[1..] == Numeral(10000 + draw);
    [prefix] + Numeral(10000 + draw)
  }

  /** Different draws or different prefixes give different ids. */
  lemma UniqueIdInjective(role1: string, draw1: nat, role2: string, draw2: nat)
    requires draw1 < 90000 && draw2 < 90000
    requires GenerateUniqueId(role1, draw1) == GenerateUniqueId(role2, draw2)
    ensures draw1 == draw2 && (role1 == "student" <==> role2 == "student")
  {
    var a, b := GenerateUniqueId(role1, draw1), GenerateUniqueId(role2, draw2);
    assert a[1..] == b[1..] && a[0] == b[0];
  }

  datatype RegisterRequest = RegisterRequest(
    firstName: Option<string>,
    lastName: Option<string>,
    email: Option<string>,
    password: Option<string>,
    role: Option<string>,
    departmentId: Option<Id>,
    faceData: Option<FaceData>)

  datatype RegisterOutcome =
    | MissingFields           // 400 "Please fill all required fields."
    | FaceDataRequired        // 400 "Face data is required for student registration."
    | UserExists              // 400 "User already exists."
    | InvalidDepartment       // 400 "Invalid department."
    | SaveFailed(error: SaveError)
    | Registered(user: User)  // 201

  predicate RequiredGiven(req: RegisterRequest) {
    Truthy(req.firstName) && Truthy(req.lastName) && Truthy(req.email)
    && Truthy(req.password) && Truthy(req.role)
  }

  /** `faceData && faceData.image && faceData.descriptors`; an array, even empty, is truthy. */
  predicate FaceDataGiven(f: Option<FaceData>) {
    f.Some? && Truthy(f.value.image) && f.value.descriptors.Some?
  }

  /** The checks that answer before anything is written, in the handler's order. */
  function RegisterRejection(req: RegisterRequest, users: seq<User>): (r: Option<RegisterOutcome>)
    ensures r == Some(MissingFields) <==> !RequiredGiven(req)
    ensures r == Some(FaceDataRequired) <==>
              RequiredGiven(req) && req.role.value == "student" && !FaceDataGiven(req.faceData)
    ensures r == Some(UserExists) <==>
              RequiredGiven(req) && (req.role.value == "student" ==> FaceDataGiven(req.faceData))
              && exists j :: 0 <= j < |users| && users[j].email == req.email.value
    ensures r.None? || r == Some(MissingFields) || r == Some(FaceDataRequired) || r == Some(UserExists)
  {
    if !RequiredGiven(req) then Some(MissingFields)
    else if req.role.value == "student" && !FaceDataGiven(req.faceData) then Some(FaceDataRequired)
    else if FindByEmail(users, req.email.value).Some? then Some(UserExists)
    else None
  }

  /**
    * `new User({...})`: the password still in plain text, the department
    * `departmentId || null`, no courses yet, face data kept only for a
    * student, the default profile picture.
    */
  function NewUser(req: RegisterRequest, newId: Id, uniqueId: string): (u: User)
    requires RequiredGiven(req)
    ensures u.courses == [] && u.password == Plain(req.password.value)
    ensures u.department == (if Truthy(req.departmentId) then req.departmentId else None)
    ensures u.faceData == (if req.role.value == "student" then req.faceData else None)
  {
    User(newId, req.firstName.value, req.lastName.value, req.email.value, Plain(req.password.value),
         req.role.value, if Truthy(req.departmentId) then req.departmentId else None, uniqueId, [],
         if req.role.value == "student" then req.faceData else None, DefaultProfilePicture)
  }

  /** Whether the handler enrols the new user: a student who named a department. */
  predicate EnrolsInDepartment(req: RegisterRequest) {
    RequiredGiven(req) && req.role.value == "student" && Truthy(req.departmentId)
  }

  /**
    * `POST /register`. `newId` is the `_id` the new document receives, `draw`
    * the random part of its unique id and `salt` the bcrypt salt. The course
    * updates are written before the user is saved, so they stay even when the
    * save then fails.
    */
  method Register(db: Db, req: RegisterRequest, newId: Id, draw: nat, salt: nat) returns (outcome: RegisterOutcome)
    requires draw < 90000
    modifies db`users, db`courses
    ensures RegisterRejection(req, old(db.users)).Some? ==>
              outcome == RegisterRejection(req, old(db.users)).value
              && db.users == old(db.users) && db.courses == old(db.courses)
    ensures RegisterRejection(req, old(db.users)).None? && EnrolsInDepartment(req)
            && FindDepartment(db.departments, req.departmentId.value).None? ==>
              outcome == InvalidDepartment && db.users == old(db.users) && db.courses == old(db.courses)
    ensures RegisterRejection(req, old(db.users)).None? && EnrolsInDepartment(req)
            && FindDepartment(db.departments, req.departmentId.value).Some? ==>
              var ids := Populated(old(db.courses), db.departments[FindDepartment(db.departments, req.departmentId.value).value].courses);
              var u := NewUser(req, newId, GenerateUniqueId(req.role.value, draw)).(courses := ids);
              && db.courses == Enroll(old(db.courses), ids, newId)
              && (match InsertUser(old(db.users), u, salt)
                  case Ok(us) => db.users == us && outcome == Registered(us[|us| - 1])
                  case Err(e) => db.users == old(db.users) && outcome == SaveFailed(e))
    ensures RegisterRejection(req, old(db.users)).None? && !EnrolsInDepartment(req) ==>
              var u := NewUser(req, newId, GenerateUniqueId(req.role.value, draw));
              && db.courses == old(db.courses)
              && (match InsertUser(old(db.users), u, salt)
                  case Ok(us) => db.users == us && outcome == Registered(us[|us| - 1])
                  case Err(e) => db.users == old(db.users) && outcome == SaveFailed(e))
  {
    var rejection := RegisterRejection(req, db.users);
    if rejection.Some? {
      return rejection.value;
    }
    var uniqueId := GenerateUniqueId(req.role.value, draw);
    var newUser := NewUser(req, newId, uniqueId);
    if EnrolsInDepartment(req) {
      var d := FindDepartment(db.departments, req.departmentId.value);
      if d.None? {
        return InvalidDepartment;
      }
      var ids := Populated(db.courses, db.departments[d.value].courses);
      newUser := newUser.(courses := ids);
      db.courses := Enroll(db.courses, ids, newId);
    }
    var saved := InsertUser(db.users, newUser, salt);
    if saved.Err? {
      return SaveFailed(saved.error);
    }
    db.users := saved.value;
    outcome := Registered(saved.value[|saved.value| - 1]);
  }

  /** A registered student with a department is stored enrolled in exactly its existing courses, and they in turn list it. */
  lemma RegisteredStudentEnrolled(courses: seq<Course>, dept: Department, newId: Id, k: nat)
    requires IdsUnique(courses) && k < |courses|
    ensures var ids := Populated(courses, dept.courses);
            newId in Enroll(courses, ids, newId)[k].students <==>
              newId in courses[k].students || courses[k].id in dept.courses
  {
    var ids := Populated(courses, dept.courses);
    EnrollMeaning(courses, ids, newId);
    if courses[k].id in dept.courses {
      assert FindCourse(courses, courses[k].id).Some?;
    }
  }

  datatype LoginOutcome =
    | LoginFieldsMissing      // 400 "Please fill all fields."
    | InvalidCredentials      // 401 "Invalid credentials."
    | LoggedIn(user: User)

  /**
    * `POST /login`: an unknown email and a wrong password give the same
    * answer.
    */
  function Login(users: seq<User>, email: Option<string>, password: Option<string>): (r: LoginOutcome)
    ensures r == LoginFieldsMissing <==> !Truthy(email) || !Truthy(password)
    ensures r == InvalidCredentials <==>
              Truthy(email) && Truthy(password)
              && (FindByEmail(users, email.value).None?
                  || !PasswordMatches(password.value, users[FindByEmail(users, email.value).value].password))
    ensures r.LoggedIn? ==> r.user.email == email.value && PasswordMatches(password.value, r.user.password)
                            && r.user in users
  {
    if !Truthy(email) || !Truthy(password) then LoginFieldsMissing
    else
      var k := FindByEmail(users, email.value);
      if k.None? then InvalidCredentials
      else if PasswordMatches(password.value, users[k.value].password) then LoggedIn(users[k.value])
      else InvalidCredentials
  }

  datatype ProfileRequest = ProfileRequest(
    firstName: Option<string>,
    lastName: Option<string>,
    email: Option<string>,
    password: Option<string>,
    department: Option<Id>,
    role: Option<string>,
    uniqueId: Option<string>)

  function Pick(given: Option<string>, current: string): string {
    if Truthy(given) then given.value else current
  }

  /** `user.x = x || user.x` for six fields; the password is assigned only when given. */
  function MergeProfile(u: User, req: ProfileRequest): User
  {
    u.(firstName := Pick(req.firstName, u.firstName),
       lastName := Pick(req.lastName, u.lastName),
       email := Pick(req.email, u.email),
       department := if Truthy(req.department) then req.department else u.department,
       role := Pick(req.role, u.role),
       uniqueId := Pick(req.uniqueId, u.uniqueId),
       password := if Truthy(req.password) then Plain(req.password.value) else u.password)
  }

  /**
    * After the profile update and its save, each of the six fields holds the
    * new value when one was given and the old one otherwise; the stored
    * password accepts the new text when one was given and is otherwise the
    * very same hash; id, courses and face data are untouched. Applying the
    * same request twice is the same as applying it once.
    */
  lemma {:induction false} MergeProfileMeaning(u: User, req: ProfileRequest, salt: nat, candidate: string)
    requires u.password.Hashed?
    ensures var r := MergeProfile(u, req);
            var stored := HashOnSave(r.password, salt);
            && r.firstName == (if Truthy(req.firstName) then req.firstName.value else u.firstName)
            && r.lastName == (if Truthy(req.lastName) then req.lastName.value else u.lastName)
            && r.email == (if Truthy(req.email) then req.email.value else u.email)
            && r.role == (if Truthy(req.role) then req.role.value else u.role)
            && r.uniqueId == (if Truthy(req.uniqueId) then req.uniqueId.value else u.uniqueId)
            && r.department == (if Truthy(req.department) then req.department else u.department)
            && (Truthy(req.password) ==> (PasswordMatches(candidate, stored) <==> candidate == req.password.value))
            && (!Truthy(req.password) ==> stored == u.password)
            && r.id == u.id && r.courses == u.courses && r.faceData == u.faceData
            && MergeProfile(r, req) == r
  {
    var r := MergeProfile(u, req);
    HashOnSaveMeaning(r.password, salt, salt, candidate);
  }

  /**
    * Nothing stops a user from changing their own role: a valid student who
    * sends role "teacher" is saved as a valid teacher and then passes the
    * teacher gate.
    */
  lemma StudentCanBecomeTeacher(u: User, salt: nat)
    requires ValidUser(u) && u.role == "student"
    ensures var r := MergeProfile(u, ProfileRequest(None, None, None, None, None, Some("teacher"), None));
            ValidUser(r.(password := HashOnSave(r.password, salt))) && r.role == "teacher"
  {
    var r := MergeProfile(u, ProfileRequest(None, None, None, None, None, Some("teacher"), None));
    ValidUserMeaning(u);
    ValidUserMeaning(r.(password := HashOnSave(r.password, salt)));
  }

  datatype ProfileOutcome = UserNotFound | ProfileSaveFailed(error: SaveError) | ProfileUpdated(user: User)

  /** `PUT /profile` for the authenticated user `callerId`. */
  method UpdateProfile(db: Db, callerId: Id, req: ProfileRequest, salt: nat) returns (outcome: ProfileOutcome)
    modifies db`users
    ensures FindUser(old(db.users), callerId).None? ==> outcome == UserNotFound && db.users == old(db.users)
    ensures FindUser(old(db.users), callerId).Some? ==>
              var k := FindUser(old(db.users), callerId).value;
              match UpdateUser(old(db.users), k, MergeProfile(old(db.users)[k], req), salt)
              case Ok(us) => db.users == us && outcome == ProfileUpdated(us[k])
              case Err(e) => db.users == old(db.users) && outcome == ProfileSaveFailed(e)
  {
    var k := FindUser(db.users, callerId);
    if k.None? {
      return UserNotFound;
    }
    var user := MergeProfile(db.users[k.value], req);
    var saved := UpdateUser(db.users, k.value, user, salt);
    if saved.Err? {
      return ProfileSaveFailed(saved.error);
    }
    db.users := saved.value;
    outcome := ProfileUpdated(saved.value[k.value]);
  }
}
