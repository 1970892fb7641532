/** Registration and login over the USERS table. The password hash is
    computed by a library the model does not see: the registry is given its
    two operations, and the only thing ever assumed of them is `Sound`,
    that a password matches its own hash. */
module Auth {
  import opened Wrappers

  /** bcrypt's `hash` and `compare`, as opaque values (salt and cost are not modelled). */
  datatype PasswordHasher = PasswordHasher(hash: string -> string, compare: (string, string) -> bool)

  /** A password matches its own hash. */
  ghost predicate Sound(h: PasswordHasher)
  {
    forall p :: h.compare(p, h.hash(p))
  }

  /** A row of USERS, without its LOGIN_ID key. */
  datatype User = User(userId: int, name: string, passwordHash: string, email: Option<string>, registrationDate: int)

  const StatusOk := 200
  const StatusCreated := 201
  const StatusBadRequest := 400
  const StatusUnauthorized := 401
  const StatusConflict := 409

  /** JavaScript truthiness of a text field: present and not empty. */
  predicate Filled(s: Option<string>)
  {
    s.Some? && s.value != ""
  }

  class UserRegistry {
    /** The table keyed by LOGIN_ID: the unique index on that column is
        what makes a second registration of the same id fail. */
    var users: map<string, User>
    /** The next AUTO_INCREMENT value of USER_ID. */
    var nextUserId: int
    const hasher: PasswordHasher

    ghost predicate Valid()
      reads this
    {
      && 1 <= nextUserId
      && forall login :: login in users ==> login != "" && 1 <= users[login].userId < nextUserId
    }

    constructor (hasher: PasswordHasher)
      ensures Valid() && users == map[] && this.hasher == hasher
    {
      users := map[];
      nextUserId := 1;
      this.hasher := hasher;
    }

    /** `POST /api/auth/register`; `now` stands for `NOW()`. */
    method Register(loginId: Option<string>, name: Option<string>, password: Option<string>,
                    email: Option<string>, now: int) returns (status: int, userId: int)
      requires Valid()
      modifies this
      ensures Valid()
      ensures status == StatusBadRequest <==> !Filled(loginId) || !Filled(name) || !Filled(password)
      ensures status == StatusConflict <==>
        Filled(loginId) && Filled(name) && Filled(password) && loginId.value in old(users)
      ensures status != StatusBadRequest && status != StatusConflict ==>
        && status == StatusCreated
        && userId == old(nextUserId)
        && users == old(users)[loginId.value := User(userId, name.value, hasher.hash(password.value), email, now)]
      ensures status != StatusCreated ==> users == old(users) && nextUserId == old(nextUserId)
    {
      if !Filled(loginId) || !Filled(name) || !Filled(password) {
        return StatusBadRequest, 0;
      }
      var passwordHash := hasher.hash(password.value);
      if loginId.value in users {
        return StatusConflict, 0;
      }
      userId := nextUserId;
      users := users[loginId.value := User(userId, name.value, passwordHash, email, now)];
      nextUserId := nextUserId + 1;
      status := StatusCreated;
    }

    /** `POST /api/auth/login`: 200 with the user's id only for a known
        login id whose stored hash the password matches; 401 otherwise. */
    method Login(loginId: Option<string>, password: string) returns (status: int, userId: int)
      ensures status == StatusOk <==>
        loginId.Some? && loginId.value in users && hasher.compare(password, users[loginId.value].passwordHash)
      ensures status == StatusOk ==> userId == users[loginId.value].userId
      ensures status != StatusOk ==> status == StatusUnauthorized
    {
      // An absent login id is bound as NULL, and `LOGIN_ID = NULL` matches no row.
      if loginId.None? || loginId.value !in users {
        return StatusUnauthorized, 0;
      }
      var user := users[loginId.value];
      if !hasher.compare(password, user.passwordHash) {
        return StatusUnauthorized, 0;
      }
      return StatusOk, user.userId;
    }
  }

  /** After a successful registration, logging in with the same id and
      password succeeds and yields the new user's id; registering the same
      id again is a conflict that changes nothing. */
  method RegisterThenLogin(registry: UserRegistry, loginId: string, name: string, password: string,
                           email: Option<string>, now: int)
      returns (registered: int, loggedIn: int, again: int)
    requires registry.Valid() && Sound(registry.hasher)
    modifies registry
    ensures registry.Valid()
    ensures registered == StatusCreated ==> loggedIn == StatusOk && again == StatusConflict
  {
    var newId, loginUser, ignored;
    registered, newId := registry.Register(Some(loginId), Some(name), Some(password), email, now);
    if registered == StatusCreated {
      loggedIn, loginUser := registry.Login(Some(loginId), password);
      assert loginUser == newId;
      var before := registry.users;
      again, ignored := registry.Register(Some(loginId), Some(name), Some(password), email, now);
      assert registry.users == before;
    } else {
      loggedIn, again := 0, 0;
    }
  }
}
