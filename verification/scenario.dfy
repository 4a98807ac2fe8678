/**
 * Callers of the registry: the demonstration sequence at the end of main.swift,
 * and the multi-call promises (log in after registering, remove twice).
 */
module Scenarios {
  import opened Credentials
  import opened Registry
  import Utf8

  /**
   * Registering `anano` and `gio`, logging `anano` in, removing `gio`, then reading
   * the count and the names: every step succeeds and one name is left. The script's
   * passwords ("secure123", "hello123") are parameters here: the outcome holds for any.
   */
  method Demonstration(sha256: Sha256, ananoPassword: string, gioPassword: string)
    returns (anano: bool, gio: bool, countAfterRegistering: nat, loggedIn: bool, removed: bool, count: nat, names: seq<string>)
    ensures anano && gio && loggedIn && removed
    ensures countAfterRegistering == 2
    ensures count == 1 && names == ["anano"]
  {
    var admin := new AdminUser(sha256);
    var m := admin.manager;
    anano := m.RegisterUser("anano", "anano@example.com", ananoPassword);
    gio := m.RegisterUser("gio", "gio@example.com", gioPassword);
    countAfterRegistering := m.UserCount();
    loggedIn := m.Login("anano", ananoPassword);
    removed := m.RemoveUser("gio");
    count := m.UserCount();
    names := admin.ListAllUsers();
    assert "anano" in names;
  }

  /**
   * After a successful registration the same password logs in, and any other attempt
   * logs in exactly when SHA-256 gives its UTF-8 octets the password's digest.
   */
  method RegisterThenLogin(m: UserManager, username: string, email: string, password: string, attempt: string)
    returns (registered: bool, loggedIn: bool)
    requires m.Valid()
    modifies m
    ensures registered <==> username !in old(m.users)
    ensures registered && attempt == password ==> loggedIn
    ensures registered ==> (loggedIn <==> m.sha256(Utf8.Encode(attempt)) == m.sha256(Utf8.Encode(password)))
  {
    registered := m.RegisterUser(username, email, password);
    loggedIn := m.Login(username, attempt);
    if registered {
      VerifyPasswordOfNewUser(m.sha256, username, email, password, attempt);
    }
  }

  /** Removing a name twice: the second removal always reports that it was not found. */
  method RemoveTwice(m: UserManager, username: string) returns (first: bool, second: bool)
    requires m.Valid()
    modifies m
    ensures first <==> username in old(m.users)
    ensures !second
    ensures m.users == old(m.users) - {username}
  {
    first := m.RemoveUser(username);
    second := m.RemoveUser(username);
  }
}
