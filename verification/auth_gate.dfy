/**
 The password gate of the start page as a pure transition system over the
 stored password (absent, or whatever string was stored) and the session's
 authenticated flag. The key-value store is the `stored` field; the "Incorrect
 password" alert is the `Rejects` predicate.
 */
module AuthGate {
  import opened Wrappers

  datatype Gate = Gate(stored: Option<string>, authenticated: bool)

  /** checkAuthentication on mount, from a session that starts unauthenticated:
      no password, or an empty one, lets the user straight in. */
  function Mount(stored: Option<string>): (g: Gate)
    ensures g.stored == stored
    ensures g.authenticated <==> (stored.None? || stored.value == "")
  {
    Gate(stored, !Truthy(stored))
  }

  /** updateButtonText */
  function ButtonText(stored: Option<string>): (t: string)
    ensures t == "Login" || t == "Set Password"
    ensures t == "Login" <==> (stored.Some? && stored.value != "")
  {
    if Truthy(stored) then "Login" else "Set Password"
  }

  /** A submission handleLogin answers with the "Incorrect password" alert. */
  predicate Rejects(g: Gate, submitted: string) {
    Truthy(g.stored) && submitted != g.stored.value
  }

  /** handleLogin: the first submission becomes the password; afterwards only
      an exact match authenticates, and a mismatch changes nothing. */
  function Login(g: Gate, submitted: string): (r: Gate)
    ensures !Truthy(g.stored) ==> r.stored == Some(submitted) && r.authenticated
    ensures Truthy(g.stored) ==> r.stored == g.stored
    ensures Truthy(g.stored) ==> (r.authenticated <==> g.authenticated || submitted == g.stored.value)
    ensures Rejects(g, submitted) ==> r == g
  {
    if !Truthy(g.stored) then
      Gate(Some(submitted), true)
    else if submitted == g.stored.value then
      g.(authenticated := true)
    else
      g
  }

  /** From an unauthenticated session, a login succeeds exactly when no
      password is set or the submission equals it. */
  lemma LoginSucceedsIff(stored: Option<string>, submitted: string)
    ensures Login(Gate(stored, false), submitted).authenticated
        <==> (stored.None? || stored.value == "" || submitted == stored.value)
  {
  }

  /** A sequence of login attempts, in order. */
  function LoginAll(g: Gate, attempts: seq<string>): Gate
    decreases |attempts|
  {
    if attempts == [] then g else LoginAll(Login(g, attempts[0]), attempts[1..])
  }

  /** Once a non-empty password is stored, no sequence of attempts changes it,
      and the session ends authenticated exactly when it already was or some
      attempt matched. */
  lemma {:induction false} StoredPasswordIsPermanent(g: Gate, attempts: seq<string>)
    requires Truthy(g.stored)
    ensures LoginAll(g, attempts).stored == g.stored
    ensures LoginAll(g, attempts).authenticated <==> g.authenticated || g.stored.value in attempts
    decreases |attempts|
  {
    if attempts != [] {
      StoredPasswordIsPermanent(Login(g, attempts[0]), attempts[1..]);
      assert attempts == [attempts[0]] + attempts[1..];
    }
  }

  /** Setting an empty password stores it, but the gate still reads as unset:
      the button says "Set Password" and the next mount lets anyone in. */
  lemma EmptyFirstPasswordLeavesGateOpen(g: Gate)
    requires !Truthy(g.stored)
    ensures Login(g, "").stored == Some("")
    ensures ButtonText(Login(g, "").stored) == "Set Password"
    ensures Mount(Login(g, "").stored).authenticated
  {
  }
}
