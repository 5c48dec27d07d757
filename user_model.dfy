/**
  The user model: the JSON file that holds every user record, the
  first-match searches over it, and the `User` object whose `save` hashes
  its password and appends it to the file.

  The file is not read or written here: its content is the field `file`
  of a `Database` object, and a read is the function `FindAll` of it.
 */
module UserModel {
  import opened JsValues
  import opened Bcrypt

  /** One stored user, as serialised into the `users` array. */
  datatype Record = Record(id: string, username: string, email: string, password: string, createdAt: string)

  /**
    What reading the file yields. `Missing` is a file that cannot be read,
    `Unparseable` a content that `JSON.parse` rejects (or that parses to
    `null`); `Parsed(users)` a document whose `users` property is an array
    of records (`Some`) or anything else, `undefined` included (`None`).
   */
  datatype Backing = Missing | Unparseable | Parsed(users: Option<seq<Record>>)

  /** The three record fields the store is searched by. */
  datatype Key = Id | Username | Email

  function KeyOf(r: Record, key: Key): (value: string)
  {
    match key
    case Id => r.id
    case Username => r.username
    case Email => r.email
  }

  /**
    `findAll`: the `users` property of the parsed file. A read or parse
    failure is caught and reads as no users at all; a document without a
    `users` array is NOT caught and comes back as `None`.
   */
  function FindAll(file: Backing): (users: Option<seq<Record>>)
    ensures file.Missing? || file.Unparseable? ==> users == Some([])
    ensures file.Parsed? ==> users == file.users
  {
    match file
    case Parsed(us) => us
    case _ => Some([])
  }

  /**
    `r` is what a first-match search of `users` for `value` under `key`
    returns: the earliest matching record, or nothing when none matches.
   */
  ghost predicate FirstMatch(users: seq<Record>, key: Key, value: string, r: Option<Record>)
  {
    match r
    case None => forall i :: 0 <= i < |users| ==> KeyOf(users[i], key) != value
    case Some(u) =>
      exists i :: 0 <= i < |users| && users[i] == u && KeyOf(u, key) == value &&
                  forall j :: 0 <= j < i ==> KeyOf(users[j], key) != value
  }

  /** `users.find(user => user.<key> === value)`. */
  function Find(users: seq<Record>, key: Key, value: string): (r: Option<Record>)
    ensures FirstMatch(users, key, value, r)
  {
    if users == [] then None
    else if KeyOf(users[0], key) == value then Some(users[0])
    else
      var rest := Find(users[1..], key, value);
      assert rest.Some? ==> FirstMatch(users, key, value, rest) by {
        if rest.Some? {
          var i :| 0 <= i < |users[1..]| && users[1..][i] == rest.value && KeyOf(rest.value, key) == value &&
                   forall j :: 0 <= j < i ==> KeyOf(users[1..][j], key) != value;
          assert users[i + 1] == rest.value;
          assert forall j :: 0 <= j < i + 1 ==> KeyOf(users[j], key) != value by {
            forall j | 0 <= j < i + 1 ensures KeyOf(users[j], key) != value {
              if j > 0 { assert users[j] == users[1..][j - 1]; }
            }
          }
        }
      }
      rest
  }

  /** The outcome of `findByEmail`, `findByUsername` or `findById`. */
  datatype Lookup =
    | TypeError            // `users.find` is not a function: the `users` property is not an array
    | Found(user: Option<Record>)

  /** `findByEmail`, `findByUsername` and `findById`: read the whole file, then search it. */
  function FindBy(file: Backing, key: Key, value: string): (r: Lookup)
    ensures r.TypeError? <==> FindAll(file).None?
    ensures r.Found? ==> FirstMatch(FindAll(file).value, key, value, r.user)
  {
    match FindAll(file)
    case None => TypeError
    case Some(users) => Found(Find(users, key, value))
  }

  /**
    The file after `users.push(record)` and the rewrite of the whole
    document; when `users` is not an array the push throws and the file
    is left as it was.
   */
  function Appended(file: Backing, record: Record): (file': Backing)
    ensures FindAll(file).None? ==> file' == file
    ensures FindAll(file).Some? ==>
              var users := FindAll(file).value;
              && FindAll(file').Some?
              && |FindAll(file').value| == |users| + 1
              && FindAll(file').value[..|users|] == users
              && FindAll(file').value[|users|] == record
  {
    match FindAll(file)
    case None => file
    case Some(users) => Parsed(Some(users + [record]))
  }

  /**
    Appending never changes the answer of a search that already succeeded;
    a search that failed now finds the new record exactly when it matches.
   */
  lemma {:induction false} FindAppend(users: seq<Record>, record: Record, key: Key, value: string)
    ensures Find(users + [record], key, value) ==
              if Find(users, key, value).Some? then Find(users, key, value)
              else if KeyOf(record, key) == value then Some(record)
              else None
  {
    if users == [] {
      assert users + [record] == [record];
    } else {
      assert (users + [record])[1..] == users[1..] + [record];
      FindAppend(users[1..], record, key, value);
    }
  }

  /** The same statement one level up: a lookup in the file after `save`. */
  lemma FindByAfterAppend(file: Backing, record: Record, key: Key, value: string)
    requires FindAll(file).Some?
    ensures FindBy(Appended(file, record), key, value) ==
              if FindBy(file, key, value).user.Some? then FindBy(file, key, value)
              else if KeyOf(record, key) == value then Found(Some(record))
              else Found(None)
  {
    FindAppend(FindAll(file).value, record, key, value);
  }

  /** Usernames are pairwise distinct and emails are pairwise distinct. */
  ghost predicate KeysUnique(users: seq<Record>)
  {
    forall i, j :: 0 <= i < j < |users| ==>
      users[i].username != users[j].username && users[i].email != users[j].email
  }

  /** The collection invariant that registration maintains (and the file never checks). */
  ghost predicate Consistent(file: Backing)
  {
    FindAll(file).Some? ==> KeysUnique(FindAll(file).value)
  }

  /**
    Under the invariant a search by username or by email can only find
    the one record that carries that key: first match is the only match.
   */
  lemma UniqueKeyLookup(users: seq<Record>, i: nat, key: Key)
    requires KeysUnique(users) && i < |users| && key != Id
    ensures Find(users, key, KeyOf(users[i], key)) == Some(users[i])
  {
    var r := Find(users, key, KeyOf(users[i], key));
    var k :| 0 <= k < |users| && users[k] == r.value && KeyOf(r.value, key) == KeyOf(users[i], key) &&
             forall j :: 0 <= j < k ==> KeyOf(users[j], key) != KeyOf(users[i], key);
    assert k <= i;
  }

  /** The JSON file `database.json`, rewritten whole on every save. */
  class Database {
    var file: Backing

    constructor(file: Backing)
      ensures this.file == file
    {
      this.file := file;
    }
  }

  /** A user object: built from the registration form, hashed and stored by `Save`. */
  class User {
    var id: string
    var username: string
    var email: string
    var password: string
    var createdAt: string

    /**
      `new User(username, email, password)`. The id (`Date.now()` as a
      string) and the creation timestamp come from the clock and are
      passed in.
     */
    constructor(username: string, email: string, password: string, id: string, createdAt: string)
      ensures this.username == username && this.email == email && this.password == password
      ensures this.id == id && this.createdAt == createdAt
    {
      this.id := id;
      this.username := username;
      this.email := email;
      this.password := password;
      this.createdAt := createdAt;
    }

    /** The record `JSON.stringify` writes for this object. */
    function Snapshot(): (r: Record)
      reads this
    {
      Record(id, username, email, password, createdAt)
    }

    /**
      `save`: read all users, replace the plaintext password by its hash
      under a fresh `salt`, append this user and rewrite the file. Returns
      this very object, or `None` when the push throws because the file's
      `users` property is not an array (the password is hashed even then).
     */
    method Save(db: Database, scheme: Scheme, salt: string) returns (saved: Option<User>)
      modifies this, db
      ensures password == scheme.hash(old(password), salt)
      ensures id == old(id) && username == old(username) && email == old(email) && createdAt == old(createdAt)
      ensures saved == if FindAll(old(db.file)).Some? then Some(this) else None
      ensures db.file == Appended(old(db.file), Snapshot())
    {
      var users := FindAll(db.file);
      password := scheme.hash(password, salt);
      if users.None? {
        return None;
      }
      db.file := Parsed(Some(users.value + [Snapshot()]));
      saved := Some(this);
    }

    /**
      `comparePassword`: ask the hashing scheme whether `candidate` matches
      the stored hash. Under a sound scheme, the plaintext a hash was made
      from always matches.
     */
    method ComparePassword(scheme: Scheme, candidate: string) returns (ok: bool)
      ensures ok == scheme.compare(candidate, password)
      ensures Sound(scheme) && (exists salt :: password == scheme.hash(candidate, salt)) ==> ok
    {
      ok := scheme.compare(candidate, password);
    }
  }
}
