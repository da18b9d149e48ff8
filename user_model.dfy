/**
 * The `User` table of authentication/models.py and its manager: the guarded insert
 * `create`, `create_user` / `create_superuser`, lookups by id and email, partial
 * `update`, and `delete_by_id` with its cascade onto the article table.
 */
module UserModel {
  import opened Wrappers
  import opened Files
  import opened Keys
  import ArticleModel

  /** `max_length=40` of `username`, also checked by `create`. */
  const MaxUsernameLength: nat := 40
  /** The email length bound checked by `create`. */
  const MaxEmailLength: nat := 100

  /** `CAMPUS_TYPE_CHOICES`; the column's default is `student`. */
  datatype CampusType = Teacher | Student

  /**
   * The `password` column. `Hashed(p)` is what `set_password(p)` stores (the hash
   * function itself is kept abstract); `Raw(p)` is a plain text stored unhashed.
   */
  datatype Password = Raw(text: string) | Hashed(plain: string)

  datatype User = User(
    id: nat,
    email: string,
    username: string,
    password: Password,
    bio: Option<string>,
    campusType: CampusType,
    isStaff: bool,
    isSuperuser: bool,
    isActive: bool)

  /** The keyword arguments `**extra_fields`; `None` is a key that was not passed. */
  datatype ExtraFields = ExtraFields(
    username: Option<string>,
    bio: Option<string>,
    campusType: Option<CampusType>,
    isStaff: Option<bool>,
    isSuperuser: Option<bool>,
    isActive: Option<bool>)

  const NoExtraFields: ExtraFields := ExtraFields(None, None, None, None, None, None)

  /** The errors the manager raises, and the unique constraint on `email` refusing a save. */
  datatype UserError = EmailNotSet | NotStaff | NotSuperuser | DuplicateEmail

  /**
   * `self.model(email=email, **extra_fields)` with the stored password: every field not
   * passed takes the column default (blank username, no bio, student, not staff, not
   * superuser, active).
   */
  function NewUser(id: nat, email: string, password: Password, extra: ExtraFields): (u: User)
    ensures u.id == id && u.email == email && u.password == password
    ensures u.username == extra.username.GetOr("") && u.bio == extra.bio
    ensures u.campusType == extra.campusType.GetOr(Student)
    ensures u.isStaff == extra.isStaff.GetOr(false) && u.isSuperuser == extra.isSuperuser.GetOr(false)
    ensures u.isActive == extra.isActive.GetOr(true)
  {
    User(id, email, extra.username.GetOr(""), password, extra.bio, extra.campusType.GetOr(Student),
         extra.isStaff.GetOr(false), extra.isSuperuser.GetOr(false), extra.isActive.GetOr(true))
  }

  // ---------------------------------------------------------------------------
  // Avatar validators

  /** `megabyte_limit * 1024 * 1024` with `megabyte_limit = 2.5`, an exact integer. */
  const MaxPhotoSize: nat := 2621440

  /** `User.file_size_validator`: rejects a photo larger than 2.5 MB. */
  function PhotoSizeAccepted(f: FileRef): (ok: bool)
    ensures ok <==> (f.size as real) <= 2.5 * 1024.0 * 1024.0
  {
    f.size <= MaxPhotoSize
  }

  const AllowedPhotoExtensions: set<string> := {"jpg", "jpeg", "png"}

  /** Both validators of the `photo` column. */
  function PhotoAccepted(f: FileRef): (ok: bool)
    ensures ok <==> (f.extension == "jpg" || f.extension == "jpeg" || f.extension == "png")
                    && f.size <= MaxPhotoSize
  {
    f.extension in AllowedPhotoExtensions && PhotoSizeAccepted(f)
  }

  // ---------------------------------------------------------------------------
  // `email.split('@')`

  /** Python's `s.split(sep)` for a one-character separator. */
  function Split(s: string, sep: char): (parts: seq<string>)
    ensures |parts| >= 1
  {
    if s == [] then [[]]
    else
      var rest := Split(s[1..], sep);
      if s[0] == sep then [[]] + rest
      else [[s[0]] + rest[0]] + rest[1..]
  }

  /** `sep.join(parts)`. */
  function Join(parts: seq<string>, sep: char): string
    requires |parts| >= 1
  {
    if |parts| == 1 then parts[0] else parts[0] + [sep] + Join(parts[1..], sep)
  }

  /** How many times `c` occurs in `s`. */
  function Occurrences(s: string, c: char): nat
  {
    if s == [] then 0 else (if s[0] == c then 1 else 0) + Occurrences(s[1..], c)
  }

  /** Splitting yields one part more than there are separators. */
  lemma {:induction false} SplitLength(s: string, sep: char)
    ensures |Split(s, sep)| == Occurrences(s, sep) + 1
  {
    if s != [] {
      SplitLength(s[1..], sep);
    }
  }

  /** No part contains the separator. */
  lemma {:induction false} SplitPartsFree(s: string, sep: char)
    ensures forall i :: 0 <= i < |Split(s, sep)| ==> sep !in Split(s, sep)[i]
  {
    if s != [] {
      SplitPartsFree(s[1..], sep);
    }
  }

  /** Joining the parts with the separator gives back the string. */
  lemma {:induction false} JoinSplit(s: string, sep: char)
    ensures Join(Split(s, sep), sep) == s
  {
    if s != [] {
      JoinSplit(s[1..], sep);
      var rest := Split(s[1..], sep);
      if s[0] != sep {
        if |rest| > 1 {
          assert ([s[0]] + rest[0]) + [sep] + Join(rest[1..], sep)
              == [s[0]] + (rest[0] + [sep] + Join(rest[1..], sep));
        }
      } else {
        assert ([[]] + rest)[1..] == rest;
      }
    }
  }

  // ---------------------------------------------------------------------------
  // The guard of `create`

  predicate EmailInUse(users: map<nat, User>, email: string)
  {
    exists k :: k in users && users[k].email == email
  }

  /**
   * The condition under which `create` inserts: username at most 40 characters, email at
   * most 100, the two passwords equal, `email.split('@')` of exactly two parts, and no
   * stored user with that email.
   */
  function CreateAccepted(users: map<nat, User>, email: string, password1: string, password2: string,
                          username: string): (ok: bool)
    ensures ok <==> |username| <= 40 && |email| <= 100 && password1 == password2
                    && Occurrences(email, '@') == 1
                    && forall k :: k in users ==> users[k].email != email
  {
    SplitLength(email, '@');
    |username| <= MaxUsernameLength
    && |email| <= MaxEmailLength
    && password1 == password2
    && |Split(email, '@')| == 2
    && !EmailInUse(users, email)
  }

  /** Once a user with `email` is stored, every later `create` with that email is refused. */
  lemma StoredEmailBlocksCreate(users: map<nat, User>, u: User, email: string,
                                                 password1: string, password2: string, username: string)
    requires u.email == email
    ensures !CreateAccepted(users[u.id := u], email, password1, password2, username)
  {
    assert users[u.id := u][u.id].email == email;
  }

  // ---------------------------------------------------------------------------
  // `create_superuser`'s handling of the flags

  /** `setdefault(key, True)` leaves a flag that is not True only when False was passed. */
  lemma DefaultsToTrue(flag: Option<bool>)
    ensures flag.GetOr(true) <==> flag != Some(false)
  {
    match flag
    case None =>
    case Some(b) =>
  }

  /**
   * `setdefault` of `is_staff`, `is_superuser` and `is_active` to True, then the two
   * checks that the first two are True.
   */
  function SuperuserFields(extra: ExtraFields): (r: Result<ExtraFields, UserError>)
    ensures extra.isStaff == Some(false) ==> r == Err(NotStaff)
    ensures extra.isStaff != Some(false) && extra.isSuperuser == Some(false) ==> r == Err(NotSuperuser)
    ensures r.Ok? <==> extra.isStaff != Some(false) && extra.isSuperuser != Some(false)
    ensures r.Ok? ==> r.value == extra.(isStaff := Some(true), isSuperuser := Some(true),
                                        isActive := Some(extra.isActive.GetOr(true)))
  {
    var filled := extra.(isStaff := Some(extra.isStaff.GetOr(true)),
                         isSuperuser := Some(extra.isSuperuser.GetOr(true)),
                         isActive := Some(extra.isActive.GetOr(true)));
    DefaultsToTrue(extra.isStaff);
    DefaultsToTrue(extra.isSuperuser);
    if filled.isStaff != Some(true) then Err(NotStaff)
    else if filled.isSuperuser != Some(true) then Err(NotSuperuser)
    else Ok(filled)
  }

  // ---------------------------------------------------------------------------
  // `update`

  /** The fields `update` assigns: only the arguments that are not `None`. */
  function Updated(u: User, password: Option<string>, username: Option<string>, bio: Option<string>)
    : (r: User)
    ensures r.id == u.id && r.email == u.email && r.campusType == u.campusType
    ensures r.isStaff == u.isStaff && r.isSuperuser == u.isSuperuser && r.isActive == u.isActive
    ensures r.password == if password.Some? then Hashed(password.value) else u.password
    ensures r.username == username.GetOr(u.username)
    ensures r.bio == if bio.Some? then bio else u.bio
  {
    u.(password := if password.Some? then Hashed(password.value) else u.password,
       username := username.GetOr(u.username),
       bio := if bio.Some? then bio else u.bio)
  }

  /** An update with no arguments changes nothing. */
  lemma UpdatedWithNothing(u: User)
    ensures Updated(u, None, None, None) == u
  {
  }

  /**
   * Applying the same update twice is applying it once. This holds because `Hashed(p)`
   * stands for "a hash of `p`": `set_password` draws a fresh random salt on every call,
   * so the stored strings of the source would differ between the two updates.
   */
  lemma UpdatedIdempotent(u: User, password: Option<string>, username: Option<string>, bio: Option<string>)
    ensures Updated(Updated(u, password, username, bio), password, username, bio)
            == Updated(u, password, username, bio)
  {
  }

  // ---------------------------------------------------------------------------
  // The store

  /** No two stored users share an email (`unique=True`). */
  predicate EmailsUnique(users: map<nat, User>)
  {
    forall i, j :: i in users && j in users && users[i].email == users[j].email ==> i == j
  }

  /** Every user is stored under its own id. */
  predicate UserIdsMatchKeys(users: map<nat, User>)
  {
    forall k :: k in users ==> users[k].id == k
  }

  /** Distinct ids make distinct records, so there are as many records as ids. */
  lemma {:induction false} RecordCount(users: map<nat, User>)
    requires UserIdsMatchKeys(users)
    ensures |users.Values| == |users|
    decreases |users|
  {
    if users != map[] {
      var k :| k in users;
      var rest := users - {k};
      assert rest.Keys == users.Keys - {k};
      RecordCount(rest);
      assert users.Values == rest.Values + {users[k]} by {
        forall v | v in users.Values
          ensures v in rest.Values + {users[k]}
        {
          var j :| j in users && users[j] == v;
          if j != k { assert rest[j] == v; }
        }
      }
      assert users[k] !in rest.Values;
    }
  }

  /**
   * The user table, together with the article table that refers to it (the cascade and
   * the foreign key join the two).
   */
  class UserStore {
    var users: map<nat, User>
    /** The id the next insert receives (an auto-increment primary key). */
    var nextId: nat
    const articles: ArticleModel.ArticleTable

    ghost predicate Valid()
      reads this, articles
    {
      1 <= nextId
      && UserIdsMatchKeys(users)
      && (forall k :: k in users ==> k < nextId)
      && EmailsUnique(users)
      && articles.Valid()
      && forall k :: k in articles.rows ==> articles.rows[k].owner in users
    }

    constructor (articles: ArticleModel.ArticleTable)
      requires articles.Valid() && articles.rows == map[]
      ensures Valid()
      ensures users == map[] && this.articles == articles
    {
      users := map[];
      nextId := 1;
      this.articles := articles;
    }

    /** `get_by_id`: the user with that id, or `None`. */
    function GetById(id: nat): (r: Option<User>)
      requires Valid()
      reads this, articles
      ensures r.Some? <==> id in users
      ensures r.Some? ==> r.value.id == id && r.value in users.Values
    {
      if id in users then Some(users[id]) else None
    }

    /** `get_by_email`: `filter(email=email).first()`, the matching user of least id, or `None`. */
    function GetByEmail(email: string): (r: Option<User>)
      requires Valid()
      reads this, articles
      ensures r.Some? <==> EmailInUse(users, email)
      ensures r.Some? ==> r.value.email == email && r.value.id in users && users[r.value.id] == r.value
      ensures r.Some? ==> forall k :: k in users && users[k].email == email ==> k == r.value.id
    {
      var matching := set k | k in users && users[k].email == email;
      assert forall k :: k in users && users[k].email == email ==> k in matching;
      if matching == {} then None else Some(users[MinKey(matching)])
    }

    /** `get_all`: every stored user, one record per id. */
    function GetAll(): (r: set<User>)
      requires Valid()
      reads this, articles
      ensures |r| == |users|
      ensures forall k :: k in users ==> users[k] in r
      ensures forall u :: u in r ==> u.id in users && users[u.id] == u
    {
      RecordCount(users);
      users.Values
    }

    /** Inserts `u` under a fresh id; the caller has checked that its email is free. */
    method Insert(email: string, password: Password, extra: ExtraFields) returns (u: User)
      requires Valid()
      requires !EmailInUse(users, email)
      modifies this
      ensures Valid()
      ensures u == NewUser(old(nextId), email, password, extra)
      ensures u.id !in old(users) && users == old(users)[u.id := u]
      ensures nextId == old(nextId) + 1
    {
      u := NewUser(nextId, email, password, extra);
      users := users[u.id := u];
      nextId := nextId + 1;
    }

    /**
     * `create`: the guarded insert `User.create`. On success the new user holds the
     * given email and username and `password1` as it was passed, unhashed.
     */
    method Create(email: string, password1: string, password2: string, username: string)
      returns (r: Option<User>)
      requires Valid()
      modifies this
      ensures Valid()
      ensures r.Some? <==> CreateAccepted(old(users), email, password1, password2, username)
      ensures r.None? ==> users == old(users) && nextId == old(nextId)
      ensures r.Some? ==> r.value.id !in old(users) && users == old(users)[r.value.id := r.value]
      ensures r.Some? ==> nextId == old(nextId) + 1
      ensures r.Some? ==> r.value.email == email && r.value.username == username
                          && r.value.password == Raw(password1)
                          && r.value == NewUser(r.value.id, email, Raw(password1),
                                                NoExtraFields.(username := Some(username)))
      ensures r.Some? ==> GetByEmail(email) == r
    {
      if CreateAccepted(users, email, password1, password2, username) {
        var u := Insert(email, Raw(password1), NoExtraFields.(username := Some(username)));
        r := Some(u);
        assert users[u.id] == u;
      } else {
        r := None;
      }
    }

    /**
     * `create_user`: refuses an empty email; otherwise stores the user under
     * `normalize(email)` with the password hashed. Saving a second user with a stored
     * (normalized) email breaks the unique constraint. `normalize` stands for the
     * manager's `normalize_email`, which is library code passed in here.
     */
    method CreateUser(email: string, password: string, extra: ExtraFields, normalize: string -> string)
      returns (r: Result<User, UserError>)
      requires Valid()
      modifies this
      ensures Valid()
      ensures email == "" ==> r == Err(EmailNotSet)
      ensures email != "" && EmailInUse(old(users), normalize(email)) ==> r == Err(DuplicateEmail)
      ensures r.Ok? <==> email != "" && !EmailInUse(old(users), normalize(email))
      ensures r.Err? ==> users == old(users) && nextId == old(nextId)
      ensures r.Ok? ==> r.value == NewUser(r.value.id, normalize(email), Hashed(password), extra)
      ensures r.Ok? ==> r.value.id !in old(users) && users == old(users)[r.value.id := r.value]
      ensures r.Ok? ==> nextId == old(nextId) + 1
    {
      if email == "" {
        return Err(EmailNotSet);
      }
      var normalized := normalize(email);
      if EmailInUse(users, normalized) {
        return Err(DuplicateEmail);
      }
      var u := Insert(normalized, Hashed(password), extra);
      r := Ok(u);
    }

    /**
     * `create_superuser`: the staff, superuser and active flags default to True; a staff
     * or superuser flag passed as anything else is refused; the rest is `create_user`
     * with the filled-in fields.
     */
    method CreateSuperuser(email: string, password: string, extra: ExtraFields, normalize: string -> string)
      returns (r: Result<User, UserError>)
      requires Valid()
      modifies this
      ensures Valid()
      ensures extra.isStaff == Some(false) ==> r == Err(NotStaff)
      ensures extra.isStaff != Some(false) && extra.isSuperuser == Some(false) ==> r == Err(NotSuperuser)
      ensures SuperuserFields(extra).Ok? && email == "" ==> r == Err(EmailNotSet)
      ensures SuperuserFields(extra).Ok? && email != "" && EmailInUse(old(users), normalize(email)) ==>
                r == Err(DuplicateEmail)
      ensures r.Ok? <==> extra.isStaff != Some(false) && extra.isSuperuser != Some(false)
                         && email != "" && !EmailInUse(old(users), normalize(email))
      ensures r.Err? ==> users == old(users) && nextId == old(nextId)
      ensures r.Ok? ==> SuperuserFields(extra).Ok?
                        && r.value == NewUser(r.value.id, normalize(email), Hashed(password),
                                              SuperuserFields(extra).value)
      ensures r.Ok? ==> r.value.isStaff && r.value.isSuperuser
                        && r.value.isActive == extra.isActive.GetOr(true)
                        && r.value.email == normalize(email) && r.value.password == Hashed(password)
      ensures r.Ok? ==> r.value.id !in old(users) && users == old(users)[r.value.id := r.value]
      ensures r.Ok? ==> nextId == old(nextId) + 1
    {
      var fields := SuperuserFields(extra);
      if fields.Err? {
        return Err(fields.error);
      }
      r := CreateUser(email, password, fields.value, normalize);
    }

    /**
     * `delete_by_id`: reports whether the user existed. Deleting a user deletes the
     * articles it owns and no others.
     */
    method DeleteById(id: nat) returns (existed: bool)
      requires Valid()
      modifies this, articles
      ensures Valid()
      ensures existed <==> id in old(users)
      ensures users == old(users) - {id}
      ensures !existed ==> users == old(users) && articles.rows == old(articles.rows)
      ensures articles.rows == ArticleModel.Cascade(old(articles.rows), id)
      ensures nextId == old(nextId) && articles.nextId == old(articles.nextId)
    {
      existed := id in users;
      if existed {
        users := users - {id};
        articles.RemoveOwnedBy(id);
      } else {
        assert users == old(users) - {id};
        ArticleModel.CascadeWithoutArticles(articles.rows, id);
      }
    }

    /**
     * `update`, called on the user with email `email`: re-reads that user and assigns the
     * password (hashed), username and bio that are passed. `found` is false when no user
     * has that email, and then nothing changes.
     */
    method Update(email: string, password: Option<string>, username: Option<string>, bio: Option<string>)
      returns (found: bool)
      requires Valid()
      modifies this
      ensures Valid()
      ensures found <==> EmailInUse(old(users), email)
      ensures !found ==> users == old(users)
      ensures found ==> var u := old(GetByEmail(email)).value;
                        users == old(users)[u.id := Updated(u, password, username, bio)]
      ensures nextId == old(nextId)
    {
      var current := GetByEmail(email);
      if current.None? {
        return false;
      }
      var u := current.value;
      users := users[u.id := Updated(u, password, username, bio)];
      found := true;
    }
  }
}
