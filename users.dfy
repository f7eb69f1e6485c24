/** The user record and the value-level parts of UserService: building a
    record from a request, overwriting one on update, the uniqueness of
    usernames and emails, and the lookup by username. */
module Users {
  import opened Common

  /** User.UserStatus: only ACTIVE is referred to by name; the other constants
      of the enum are represented by their names. */
  datatype UserStatus = Active | OtherStatus(name: string)

  const DefaultStatus: UserStatus := Active

  /** A persisted user row; its id is the key of the user table. */
  datatype User = User(
    username: string,
    email: string,
    fullName: string,
    status: Option<UserStatus>,
    createdAt: int)

  /** The fields a client sends to create or update a user (UserDTO). */
  datatype UserDto = UserDto(
    username: string,
    email: string,
    fullName: string,
    status: Option<UserStatus>)

  /** `existsByUsername` */
  predicate UsernameTaken(users: map<nat, User>, username: string)
    ensures UsernameTaken(users, username) <==> exists u :: u in users.Values && u.username == username
  {
    exists id :: id in users && users[id].username == username
  }

  /** `existsByEmail` */
  predicate EmailTaken(users: map<nat, User>, email: string)
    ensures EmailTaken(users, email) <==> exists u :: u in users.Values && u.email == email
  {
    exists id :: id in users && users[id].email == email
  }

  /** No two users share a username, and no two share an email. */
  ghost predicate Unique(users: map<nat, User>) {
    forall i, j :: i in users && j in users && i != j ==>
      users[i].username != users[j].username && users[i].email != users[j].email
  }

  /** `convertToEntity`: copies the request and replaces a null status by ACTIVE. */
  function ToEntity(d: UserDto, now: int): (u: User)
    ensures u.status.Some?
    ensures d.status.Some? ==> u.status == d.status
    ensures d.status.None? ==> u.status == Some(Active)
    ensures u.username == d.username && u.email == d.email && u.fullName == d.fullName && u.createdAt == now
  {
    User(d.username, d.email, d.fullName, Some(d.status.GetOr(DefaultStatus)), now)
  }

  /** updateUser's four setters: username, email, full name and status
      (a null status included) are overwritten; the creation time is kept. */
  function Overwritten(existing: User, d: UserDto): (u: User)
    ensures u.username == d.username && u.email == d.email && u.fullName == d.fullName
    ensures u.status == d.status && u.createdAt == existing.createdAt
  {
    existing.(username := d.username, email := d.email, fullName := d.fullName, status := d.status)
  }

  /** The guard of createUser: the username check comes first, then the email
      check; a request passing both may be inserted. */
  function CreateCheck(users: map<nat, User>, d: UserDto): (r: Result<()>)
    ensures r.Ok? <==> !UsernameTaken(users, d.username) && !EmailTaken(users, d.email)
    ensures UsernameTaken(users, d.username) ==> r == Err(Duplicate(Username))
    ensures !UsernameTaken(users, d.username) && EmailTaken(users, d.email) ==> r == Err(Duplicate(Email))
  {
    if UsernameTaken(users, d.username) then Err(Duplicate(Username))
    else if EmailTaken(users, d.email) then Err(Duplicate(Email))
    else Ok(())
  }

  /** The guard of updateUser for an existing id: a username or an email is
      checked only when it differs from the user's current one, so keeping
      one's own username and email always passes. */
  function UpdateCheck(users: map<nat, User>, id: nat, d: UserDto): (r: Result<()>)
    requires id in users
    ensures d.username == users[id].username && d.email == users[id].email ==> r.Ok?
    ensures r.Ok? <==> && (d.username == users[id].username || !UsernameTaken(users, d.username))
                       && (d.email == users[id].email || !EmailTaken(users, d.email))
    ensures d.username != users[id].username && UsernameTaken(users, d.username) ==> r == Err(Duplicate(Username))
    ensures !(d.username != users[id].username && UsernameTaken(users, d.username)) ==>
              d.email != users[id].email && EmailTaken(users, d.email) ==> r == Err(Duplicate(Email))
  {
    if d.username != users[id].username && UsernameTaken(users, d.username) then Err(Duplicate(Username))
    else if d.email != users[id].email && EmailTaken(users, d.email) then Err(Duplicate(Email))
    else Ok(())
  }

  /** A user that passed createUser's guard keeps the table unique. */
  lemma InsertKeepsUnique(users: map<nat, User>, id: nat, d: UserDto, now: int)
    requires Unique(users) && id !in users
    requires CreateCheck(users, d).Ok?
    ensures Unique(users[id := ToEntity(d, now)])
  {
    var users' := users[id := ToEntity(d, now)];
    forall i, j | i in users' && j in users' && i != j
      ensures users'[i].username != users'[j].username && users'[i].email != users'[j].email
    {
      if i == id {
        assert users'[j] == users[j];
      } else if j == id {
        assert users'[i] == users[i];
      }
    }
  }

  /** An update that passed updateUser's guard keeps the table unique. */
  lemma OverwriteKeepsUnique(users: map<nat, User>, id: nat, d: UserDto)
    requires Unique(users) && id in users
    requires UpdateCheck(users, id, d).Ok?
    ensures Unique(users[id := Overwritten(users[id], d)])
  {
    var users' := users[id := Overwritten(users[id], d)];
    forall i, j | i in users' && j in users' && i != j
      ensures users'[i].username != users'[j].username && users'[i].email != users'[j].email
    {
      if i == id {
        assert users'[j] == users[j];
      } else if j == id {
        assert users'[i] == users[i];
      }
    }
  }

  /** `findByUsername(username).orElseThrow(...)`: scans the table for the
      username; in a table with unique usernames the answer is the one user
      that has it. */
  method FindByUsername(users: map<nat, User>, username: string) returns (r: Result<User>)
    ensures r.Ok? <==> UsernameTaken(users, username)
    ensures r.Ok? ==> r.value.username == username && r.value in users.Values
    ensures r.Err? ==> r.error == NotFound
    ensures Unique(users) ==> forall id :: id in users && users[id].username == username ==> r == Ok(users[id])
  {
    var pending := users.Keys;
    while pending != {}
      invariant pending <= users.Keys
      invariant forall id :: id in users && id !in pending ==> users[id].username != username
      decreases pending
    {
      var id :| id in pending;
      if users[id].username == username {
        return Ok(users[id]);
      }
      pending := pending - {id};
    }
    return Err(NotFound);
  }
}
