/**
 * The User model as the controllers use it: name, e-mail, an optional password hash (a client
 * created by an administrator has none until the first access) and the user type.
 */
module Users {
  import opened Wrappers
  import opened Calendar

  datatype UserType = Cliente | Master {
    function Code(): string {
      match this
      case Cliente => "CLIENTE"
      case Master => "MASTER"
    }
  }

  /**
   * The TypeError raised when null reaches the `password` mutator, whose parameter is typed
   * `string`. It is an Error, not an `\Exception`, so no controller catches it and the request
   * ends with status 500.
   */
  const NullPasswordError: string := "App\\Model\\User::setPasswordAttribute(): Argument #1 ($value) must be of type string, null given"

  /**
   * The RelationNotFoundException eager loading `account` raises: `User` declares no
   * `account` relation. It is an `\Exception`, so the handlers around the queries catch it.
   */
  const NoAccountRelation: string := "Call to undefined relationship [account] on model [App\\Model\\User]."

  /** A read-only copy of one user row. */
  datatype UserRow = UserRow(id: nat, name: string, email: string, password: Option<string>,
                             userType: UserType, createdAt: DateTime)

  class User {
    const id: nat
    var name: string
    var email: string
    /** The stored hash, or None while no password has been set. */
    var password: Option<string>
    const userType: UserType
    const createdAt: DateTime

    constructor (id: nat, name: string, email: string, password: Option<string>, userType: UserType, createdAt: DateTime)
      ensures this.id == id && this.name == name && this.email == email && this.password == password
      ensures this.userType == userType && this.createdAt == createdAt
    {
      this.id := id;
      this.name := name;
      this.email := email;
      this.password := password;
      this.userType := userType;
      this.createdAt := createdAt;
    }

    function Row(): (r: UserRow)
      reads this
      ensures r.id == id && r.name == name && r.email == email && r.password == password
      ensures r.userType == userType && r.createdAt == createdAt
    {
      UserRow(id, name, email, password, userType, createdAt)
    }
  }

  /** `User::find(id)`: the first user with that id, as a list of at most one. */
  function FindUser(users: seq<UserRow>, id: nat): (found: seq<UserRow>)
    ensures |found| <= 1
    ensures found == [] <==> forall i :: 0 <= i < |users| ==> users[i].id != id
    ensures found != [] ==> found[0] in users && found[0].id == id
  {
    if users == [] then []
    else if users[0].id == id then [users[0]]
    else FindUser(users[1..], id)
  }

  /**
   * `with('account')` on a query of users, as written: the relation is resolved only when the
   * query found someone, and then it raises, since `User` declares no `account` relation.
   */
  function WithAccountAsWritten<T>(found: seq<T>): (r: Outcome<seq<T>>)
    ensures r.Ok? <==> found == []
    ensures r.Ok? ==> r.value == found
    ensures r.Fail? ==> r.message == NoAccountRelation
  {
    if found == [] then Ok(found) else Fail(500, NoAccountRelation)
  }
}
