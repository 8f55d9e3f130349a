/** The credentials file as the server reads it: one `username password`
    pair per line, scanned from the top on every lookup. */
module Credentials {

  datatype Cred = Cred(user: string, password: string)

  /** `usernameLookup`: some line carries the claimed username. */
  function UsernameLookup(creds: seq<Cred>, username: string): (r: bool)
    ensures r <==> exists i :: 0 <= i < |creds| && creds[i].user == username
  {
    if creds == [] then false
    else if creds[0].user == username then true
    else UsernameLookup(creds[1..], username)
  }

  /** Line `i` is the first line that carries `username`. */
  ghost predicate FirstLineOf(creds: seq<Cred>, username: string, i: int) {
    0 <= i < |creds| && creds[i].user == username
    && forall j :: 0 <= j < i ==> creds[j].user != username
  }

  /** `passwordLookup`: the scan stops at the first line with the username
      and answers whether that line's password matches; later lines with
      the same username are never consulted. */
  function PasswordLookup(creds: seq<Cred>, username: string, password: string): (r: bool)
    ensures r <==> exists i :: FirstLineOf(creds, username, i) && creds[i].password == password
  {
    if creds == [] then false
    else if creds[0].user == username then
      assert FirstLineOf(creds, username, 0);
      creds[0].password == password
    else
      var r := PasswordLookup(creds[1..], username, password);
      assert forall i :: FirstLineOf(creds[1..], username, i) <==> FirstLineOf(creds, username, i + 1);
      r
  }

  /** A password is only ever accepted for a username that the username
      lookup finds. */
  lemma PasswordImpliesUsername(creds: seq<Cred>, username: string, password: string)
    requires PasswordLookup(creds, username, password)
    ensures UsernameLookup(creds, username)
  {
  }

  /** Lines appended after the first occurrence of a username change
      nothing about that username's password check. */
  lemma {:induction false} LaterDuplicatesIgnored(creds: seq<Cred>, extra: seq<Cred>, username: string, password: string)
    requires UsernameLookup(creds, username)
    ensures PasswordLookup(creds + extra, username, password) == PasswordLookup(creds, username, password)
  {
    if creds[0].user != username {
      assert (creds + extra)[1..] == creds[1..] + extra;
      LaterDuplicatesIgnored(creds[1..], extra, username, password);
    }
  }
}
