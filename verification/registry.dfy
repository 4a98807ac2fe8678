/**
 * `UserManager`, the table from user name to `User` that registration and removal
 * update in place, and `AdminUser`, which adds the listing of every user name.
 */
module Registry {
  import opened Credentials

  class UserManager {
    /** The digest `User.hashPassword` applies. */
    const sha256: Sha256
    /** The private dictionary `users`. */
    var users: map<string, User>

    /**
     * Every record sits under its own user name and holds a digest rendering
     * rather than a password.
     */
    ghost predicate Valid()
      reads this
    {
      forall name :: name in users ==> users[name].username == name && IsDigestText(users[name].password)
    }

    constructor (sha256: Sha256)
      ensures Valid()
      ensures this.sha256 == sha256 && users == map[]
    {
      this.sha256 := sha256;
      users := map[];
    }

    /** `registerUser`: inserts a new record only when the name is free. */
    method RegisterUser(username: string, email: string, password: string) returns (ok: bool)
      requires Valid()
      modifies this
      ensures Valid()
      ensures ok <==> username !in old(users)
      ensures users == if ok then old(users)[username := NewUser(sha256, username, email, password)] else old(users)
      ensures UserCount() == old(UserCount()) + (if ok then 1 else 0)
    {
      if username in users {
        return false;
      }
      var newUser := NewUser(sha256, username, email, password);
      users := users[username := newUser];
      return true;
    }

    /**
     * `login`: succeeds only for a known name whose stored digest matches; an
     * unknown name and a wrong password give the same `false`.
     */
    function Login(username: string, password: string): (ok: bool)
      reads this
      ensures username !in users ==> !ok
      ensures username in users && users[username].password != HashPassword(sha256, password) ==> !ok
      ensures username in users && users[username].password == HashPassword(sha256, password) ==> ok
    {
      username in users && users[username].VerifyPassword(sha256, password)
    }

    /** `removeUser`: deletes the record under the name, if any. */
    method RemoveUser(username: string) returns (ok: bool)
      requires Valid()
      modifies this
      ensures Valid()
      ensures ok <==> username in old(users)
      ensures users == old(users) - {username}
      ensures UserCount() == old(UserCount()) - (if ok then 1 else 0)
    {
      ok := username in users;
      users := users - {username};
    }

    /** `userCount`. */
    function UserCount(): nat
      reads this
    {
      |users|
    }

    /** `getAllUsers`: a copy of the table; a map is a value, so callers cannot change it. */
    function GetAllUsers(): (snapshot: map<string, User>)
      reads this
      requires Valid()
      ensures forall name :: name in snapshot ==> snapshot[name].username == name
      ensures forall name :: name in snapshot ==> IsDigestText(snapshot[name].password)
    {
      users
    }
  }

  /** `AdminUser`: a `UserManager` with the extra listing operation. */
  class AdminUser {
    const manager: UserManager

    constructor (sha256: Sha256)
      ensures fresh(manager) && manager.Valid()
      ensures manager.sha256 == sha256 && manager.users == map[]
    {
      manager := new UserManager(sha256);
    }

    /** `listAllUsers`: every registered name exactly once, in no particular order. */
    method ListAllUsers() returns (names: seq<string>)
      requires manager.Valid()
      ensures |names| == manager.UserCount()
      ensures forall i, j :: 0 <= i < j < |names| ==> names[i] != names[j]
      ensures forall name :: name in names <==> name in manager.users
    {
      var keys := manager.GetAllUsers().Keys;
      var remaining := keys;
      names := [];
      while remaining != {}
        invariant remaining <= keys
        invariant forall name :: name in names <==> name in keys && name !in remaining
        invariant forall i, j :: 0 <= i < j < |names| ==> names[i] != names[j]
        invariant |names| + |remaining| == |keys|
        decreases remaining
      {
        var name :| name in remaining;
        names := names + [name];
        remaining := remaining - {name};
      }
    }
  }
}
