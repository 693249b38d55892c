/**
 * Sequences of requests handled one after another, and what holds in every
 * store they reach.
 */
module Traces {
  import opened Wrappers
  import opened Models
  import opened Auth
  import opened AuthProperties

  /** One handled request together with the salt and clock reading it drew. */
  datatype Call = Call(req: Request, env: Env)

  /** The store after handling `calls` in order, starting from `s`. */
  function Run(s: Store, calls: seq<Call>): (r: Store)
    decreases |calls|
  {
    if |calls| == 0 then s
    else Run(Handle(s, calls[0].req, calls[0].env).store, calls[1..])
  }

  /** Every store reached from a valid one is valid: keys stay unique and rows stay within bounds. */
  lemma {:induction false} RunPreservesValid(s: Store, calls: seq<Call>)
    requires Valid(s)
    ensures Valid(Run(s, calls))
    decreases |calls|
  {
    if |calls| > 0 {
      HandlePreservesValid(s, calls[0].req, calls[0].env);
      RunPreservesValid(Handle(s, calls[0].req, calls[0].env).store, calls[1..]);
    }
  }

  /** Every store reached from the empty table satisfies the invariant. */
  lemma ReachableStoresValid(calls: seq<Call>)
    ensures Valid(Run(EmptyStore, calls))
  {
    RunPreservesValid(EmptyStore, calls);
  }

  /**
   * Along any sequence of requests, users are never removed or reordered and
   * never change their id, username, profile, active flag or creation time.
   */
  lemma {:induction false} RunKeepsAccounts(s: Store, calls: seq<Call>)
    ensures |s.users| <= |Run(s, calls).users|
    ensures forall i :: 0 <= i < |s.users| ==> SameAccount(s.users[i], Run(s, calls).users[i])
    decreases |calls|
  {
    if |calls| > 0 {
      var s1 := Handle(s, calls[0].req, calls[0].env).store;
      HandleKeepsAccounts(s, calls[0].req, calls[0].env);
      RunKeepsAccounts(s1, calls[1..]);
    }
  }

  /**
   * No flow clears the active flag and every new user starts active, so
   * starting from a table of active users every reachable user is active.
   */
  lemma {:induction false} RunKeepsUsersActive(s: Store, calls: seq<Call>)
    requires forall i :: 0 <= i < |s.users| ==> s.users[i].isActive
    ensures forall i :: 0 <= i < |Run(s, calls).users| ==> Run(s, calls).users[i].isActive
    decreases |calls|
  {
    if |calls| > 0 {
      var s1 := Handle(s, calls[0].req, calls[0].env).store;
      HandleKeepsAccounts(s, calls[0].req, calls[0].env);
      RunKeepsUsersActive(s1, calls[1..]);
    }
  }

  /**
   * From the empty table, the flows alone never produce an inactive user:
   * the inactive-user error needs a row deactivated outside these flows.
   */
  lemma ReachableUsersActive(calls: seq<Call>, d: LoginData)
    ensures forall i :: 0 <= i < |Run(EmptyStore, calls).users| ==> Run(EmptyStore, calls).users[i].isActive
    ensures Login(Run(EmptyStore, calls), d).result != Failure(InactiveUser)
  {
    RunKeepsUsersActive(EmptyStore, calls);
  }
}
