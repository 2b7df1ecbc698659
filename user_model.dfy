/**
  * The user schema: role-conditional required paths (a student needs a
  * department and face data), the unique email and unique id indexes, and the
  * `pre("save")` hook that replaces a newly assigned password by its hash.
  */
module UserModel {
  import opened Base

  /**
    * The `password` path as it is held: a plain text assigned since the last
    * save (so `isModified("password")` is true), or the bcrypt hash the save
    * hook wrote. The hash is symbolic; bcrypt itself is not modelled.
    */
  datatype Password = Plain(text: string) | Hashed(text: string, salt: nat)

  datatype FaceData = FaceData(image: Option<string>, descriptors: Option<seq<real>>)

  datatype User = User(
    id: Id,
    firstName: string,
    lastName: string,
    email: string,
    password: Password,
    role: string,
    department: Option<Id>,
    uniqueId: string,
    courses: seq<Id>,
    faceData: Option<FaceData>,
    profilePicture: string)

  const DefaultProfilePicture: string := "https://example.com/default-profile.png"

  datatype UserField =
    | FirstNameField | LastNameField | EmailField | PasswordField | RoleField
    | DepartmentField | UniqueIdField | FaceImageField | FaceDescriptorsField

  predicate IsStudent(u: User) {
    u.role == "student"
  }

  /** The validators that fail for a user document. */
  function UserViolations(u: User): set<UserField>
  {
    (if u.firstName == "" then {FirstNameField} else {})
    + (if u.lastName == "" then {LastNameField} else {})
    + (if u.email == "" then {EmailField} else {})
    + (if u.password.text == "" then {PasswordField} else {})
    + (if u.role !in {"student", "teacher"} then {RoleField} else {})
    + (if IsStudent(u) && u.department.None? then {DepartmentField} else {})
    + (if u.uniqueId == "" then {UniqueIdField} else {})
    + (if IsStudent(u) && (u.faceData.None? || !Truthy(u.faceData.value.image)) then {FaceImageField} else {})
    + (if IsStudent(u) && (u.faceData.None? || u.faceData.value.descriptors.None?) then {FaceDescriptorsField} else {})
  }

  predicate ValidUser(u: User) {
    UserViolations(u) == {}
  }

  /**
    * The role enum admits only "student" and "teacher"; department and both
    * parts of the face data are required exactly when the role is "student".
    */
  lemma ValidUserMeaning(u: User)
    ensures ValidUser(u) <==>
              && u.firstName != "" && u.lastName != "" && u.email != "" && u.password.text != ""
              && u.uniqueId != "" && (u.role == "student" || u.role == "teacher")
              && (u.role == "student" ==>
                    u.department.Some? && u.faceData.Some? && Truthy(u.faceData.value.image)
                    && u.faceData.value.descriptors.Some?)
  {
    if ValidUser(u) {
      assert RoleField !in UserViolations(u);
      assert DepartmentField !in UserViolations(u);
      assert FaceImageField !in UserViolations(u);
      assert FaceDescriptorsField !in UserViolations(u);
    }
  }

  /** The `pre("save")` hook: only a password assigned since the last save is hashed. */
  function HashOnSave(p: Password, salt: nat): Password
  {
    match p
    case Plain(t) => Hashed(t, salt)
    case Hashed(_, _) => p
  }

  /** `bcrypt.compare(candidate, stored)`. */
  predicate PasswordMatches(candidate: string, stored: Password)
  {
    stored.Hashed? && stored.text == candidate
  }

  /**
    * After a save the stored password accepts exactly the newly assigned text
    * when one was assigned, and otherwise what it accepted before; a second
    * save does not hash again.
    */
  lemma {:induction false} HashOnSaveMeaning(p: Password, salt: nat, later: nat, candidate: string)
    ensures PasswordMatches(candidate, HashOnSave(p, salt)) <==>
              (if p.Plain? then p.text == candidate else PasswordMatches(candidate, p))
    ensures HashOnSave(HashOnSave(p, salt), later) == HashOnSave(p, salt)
  {
    match p
    case Plain(t) =>
      assert HashOnSave(p, salt) == Hashed(t, salt);
    case Hashed(_, _) =>
      assert HashOnSave(p, salt) == p;
  }

  predicate EmailsUnique(users: seq<User>) {
    forall i, j :: 0 <= i < j < |users| ==> users[i].email != users[j].email
  }

  predicate UniqueIdsUnique(users: seq<User>) {
    forall i, j :: 0 <= i < j < |users| ==> users[i].uniqueId != users[j].uniqueId
  }

  /** `User.findOne({ email })`. */
  function FindByEmail(users: seq<User>, email: string): (r: Option<nat>)
    ensures r.Some? ==> r.value < |users| && users[r.value].email == email
                        && forall j :: 0 <= j < r.value ==> users[j].email != email
    ensures r.None? <==> forall j :: 0 <= j < |users| ==> users[j].email != email
  {
    FindFirst(users, (u: User) => u.email == email)
  }

  /** `User.findById(id)`. */
  function FindUser(users: seq<User>, id: Id): (r: Option<nat>)
    ensures r.Some? ==> r.value < |users| && users[r.value].id == id
                        && forall j :: 0 <= j < r.value ==> users[j].id != id
    ensures r.None? <==> forall j :: 0 <= j < |users| ==> users[j].id != id
  {
    FindFirst(users, (u: User) => u.id == id)
  }

  datatype SaveError = Invalid(fields: set<UserField>) | DuplicateKey

  /**
    * `newUser.save()` for a new document: the hook hashes the password, the
    * validators run, then the two unique indexes are enforced on insert.
    */
  function InsertUser(users: seq<User>, u: User, salt: nat): (r: Result<seq<User>, SaveError>)
    ensures r.Ok? <==>
              ValidUser(u.(password := HashOnSave(u.password, salt)))
              && (forall j :: 0 <= j < |users| ==> users[j].email != u.email && users[j].uniqueId != u.uniqueId)
    ensures r.Ok? ==> r.value == users + [u.(password := HashOnSave(u.password, salt))]
    ensures r.Ok? && EmailsUnique(users) && UniqueIdsUnique(users) ==>
              EmailsUnique(r.value) && UniqueIdsUnique(r.value)
  {
    var saved := u.(password := HashOnSave(u.password, salt));
    if !ValidUser(saved) then Err(Invalid(UserViolations(saved)))
    else if exists j :: 0 <= j < |users| && (users[j].email == u.email || users[j].uniqueId == u.uniqueId) then
      Err(DuplicateKey)
    else Ok(users + [saved])
  }

  /**
    * `user.save()` for the document at position `k`: the hook hashes a newly
    * assigned password, the validators run, and the unique indexes reject an
    * email or unique id that another user already holds.
    */
  function UpdateUser(users: seq<User>, k: nat, u: User, salt: nat): (r: Result<seq<User>, SaveError>)
    requires k < |users|
    ensures r.Ok? <==>
              ValidUser(u.(password := HashOnSave(u.password, salt)))
              && (forall j :: 0 <= j < |users| && j != k ==> users[j].email != u.email && users[j].uniqueId != u.uniqueId)
    ensures r.Ok? ==> r.value == users[k := u.(password := HashOnSave(u.password, salt))]
    ensures r.Ok? && EmailsUnique(users) && UniqueIdsUnique(users) ==>
              EmailsUnique(r.value) && UniqueIdsUnique(r.value)
  {
    var saved := u.(password := HashOnSave(u.password, salt));
    if !ValidUser(saved) then Err(Invalid(UserViolations(saved)))
    else if exists j :: 0 <= j < |users| && j != k && (users[j].email == u.email || users[j].uniqueId == u.uniqueId) then
      Err(DuplicateKey)
    else Ok(users[k := saved])
  }
}
