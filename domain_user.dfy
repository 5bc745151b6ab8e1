/**
 * The user profile with roles and login lockout (app/models/domain/user.py).
 *
 * `record_login_attempt` reads the clock only on success; the instant is the
 * `now` argument. The profile is not used by the user service.
 */
module Domain {
  import opened Wrappers

  /** A profile with this many failed attempts or more is locked. */
  const LockThreshold: int := 3

  /** `UserRole`, a string-valued enumeration. */
  datatype UserRole = Regular | Admin | Superuser {
    function Value(): string {
      match this
      case Regular => "regular"
      case Admin => "admin"
      case Superuser => "superuser"
    }
  }

  /** `UserRole(s)`: the member with that value, if any. */
  function ParseRole(s: string): (r: Option<UserRole>)
    ensures r.Some? ==> r.value.Value() == s
    ensures r.None? ==> forall role: UserRole :: role.Value() != s
  {
    if s == "regular" then Some(Regular)
    else if s == "admin" then Some(Admin)
    else if s == "superuser" then Some(Superuser)
    else None
  }

  /** Every role is recovered from its value. */
  lemma RoleValueRoundTrip(role: UserRole)
    ensures ParseRole(role.Value()) == Some(role)
  {
  }

  /** One call of `record_login_attempt`. */
  datatype Attempt = Failure | Success(at: int)

  /** The part of a profile that login attempts change. */
  datatype LoginState = LoginState(attempts: int, lastLogin: Option<int>) {
    predicate IsLocked() {
      attempts >= LockThreshold
    }

    /** A success clears the counter and records the instant; a failure counts one more, locked or not. */
    function Record(a: Attempt): (r: LoginState)
      ensures a.Success? ==> r.attempts == 0 && !r.IsLocked() && r.lastLogin == Some(a.at)
      ensures a.Failure? ==> r.attempts == attempts + 1 && r.lastLogin == lastLogin
      ensures a.Failure? && IsLocked() ==> r.IsLocked()
    {
      match a
      case Success(at) => LoginState(0, Some(at))
      case Failure => LoginState(attempts + 1, lastLogin)
    }
  }

  /** A fresh profile: no attempts and no login yet. */
  const Fresh: LoginState := LoginState(0, None)

  /** The state after a history of attempts, oldest first. */
  function Replay(s: LoginState, history: seq<Attempt>): LoginState {
    if |history| == 0 then s
    else Replay(s, history[..|history| - 1]).Record(history[|history| - 1])
  }

  /** `n` failures in a row. */
  function Failures(n: nat): (history: seq<Attempt>)
    ensures |history| == n && forall i :: 0 <= i < n ==> history[i] == Failure
  {
    seq(n, _ => Failure)
  }

  predicate HasSuccess(history: seq<Attempt>) {
    exists i :: 0 <= i < |history| && history[i].Success?
  }

  /** How many failures follow the last success (all of them when there is none). */
  function TrailingFailures(history: seq<Attempt>): (n: nat)
    ensures !HasSuccess(history) ==> n == |history|
  {
    if |history| == 0 || history[|history| - 1].Success? then 0
    else
      var prefix := history[..|history| - 1];
      assert forall i :: 0 <= i < |prefix| ==> prefix[i] == history[i];
      TrailingFailures(prefix) + 1
  }

  /** The instant of the last success, if there was one. */
  function LastSuccess(history: seq<Attempt>): (t: Option<int>)
    ensures t.Some? <==> HasSuccess(history)
  {
    if |history| == 0 then None
    else if history[|history| - 1].Success? then Some(history[|history| - 1].at)
    else
      var prefix := history[..|history| - 1];
      assert forall i :: 0 <= i < |prefix| ==> prefix[i] == history[i];
      LastSuccess(prefix)
  }

  /**
   * After any history the counter is the number of failures since the last
   * success (added to the starting count when no success happened), and the
   * last login is the instant of the last success (or the starting one).
   */
  lemma {:induction false} ReplayCharacterised(s: LoginState, history: seq<Attempt>)
    ensures Replay(s, history).attempts
            == (if HasSuccess(history) then 0 else s.attempts) + TrailingFailures(history)
    ensures Replay(s, history).lastLogin
            == if HasSuccess(history) then LastSuccess(history) else s.lastLogin
  {
    if |history| > 0 {
      var prefix := history[..|history| - 1];
      ReplayCharacterised(s, prefix);
      assert forall i :: 0 <= i < |prefix| ==> prefix[i] == history[i];
      if !history[|history| - 1].Success? {
        assert HasSuccess(history) ==> HasSuccess(prefix);
      }
    }
  }

  /** From a fresh profile, `n` failures in a row lock it exactly when `n` is at least three. */
  lemma LockedAfterThreeFailures(n: nat)
    ensures Replay(Fresh, Failures(n)).IsLocked() <==> n >= 3
    ensures Replay(Fresh, Failures(n)).lastLogin == None
  {
    ReplayCharacterised(Fresh, Failures(n));
  }

  /** A success unlocks the profile whatever came before. */
  lemma SuccessUnlocks(s: LoginState, history: seq<Attempt>, at: int)
    ensures var after := Replay(s, history + [Success(at)]);
      !after.IsLocked() && after.attempts == 0 && after.lastLogin == Some(at)
  {
    assert (history + [Success(at)])[..|history|] == history;
  }

  /** Failures keep counting past the threshold: there is no lock check. */
  lemma FailureWhileLockedCounts(s: LoginState)
    requires s.IsLocked()
    ensures s.Record(Failure).IsLocked() && s.Record(Failure).attempts == s.attempts + 1
  {
  }

  /** A counter that starts non-negative stays non-negative. */
  lemma AttemptsStayNonNegative(s: LoginState, history: seq<Attempt>)
    requires s.attempts >= 0
    ensures Replay(s, history).attempts >= 0
  {
    ReplayCharacterised(s, history);
  }

  /** `UserDomain`: a profile whose login fields change in place. */
  class UserDomain {
    var id: int
    var username: string
    var isActive: bool
    var role: UserRole
    var lastLogin: Option<int>
    var loginAttempts: int

    constructor (id: int, username: string, isActive: bool, role: UserRole,
                 lastLogin: Option<int> := None, loginAttempts: int := 0)
      ensures this.id == id && this.username == username
      ensures this.isActive == isActive && this.role == role
      ensures this.lastLogin == lastLogin && this.loginAttempts == loginAttempts
    {
      this.id := id;
      this.username := username;
      this.isActive := isActive;
      this.role := role;
      this.lastLogin := lastLogin;
      this.loginAttempts := loginAttempts;
    }

    function Login(): LoginState
      reads this
    {
      LoginState(loginAttempts, lastLogin)
    }

    /** `is_locked`. */
    predicate IsLocked()
      reads this
      ensures IsLocked() <==> loginAttempts >= 3
    {
      Login().IsLocked()
    }

    /** `record_login_attempt`: only the counter and the last login change. */
    method RecordLoginAttempt(success: bool, now: int)
      modifies this`loginAttempts, this`lastLogin
      ensures Login() == old(Login()).Record(if success then Success(now) else Failure)
      ensures id == old(id) && username == old(username) && isActive == old(isActive) && role == old(role)
    {
      if success {
        loginAttempts := 0;
        lastLogin := Some(now);
      } else {
        loginAttempts := loginAttempts + 1;
      }
    }

    /** `can_access_admin_panel`: an active administrator or superuser; a regular user never. */
    predicate CanAccessAdminPanel()
      reads this
      ensures CanAccessAdminPanel() <==> isActive && role != Regular
    {
      (role == Admin || role == Superuser) && isActive
    }
  }

  /** A new profile is locked by its third failed login and unlocked by the next success. */
  method LockoutScenario(now: int) returns (lockedBefore: bool, lockedAfterTwo: bool, lockedAfterThree: bool, lockedAfterSuccess: bool)
    ensures !lockedBefore && !lockedAfterTwo && lockedAfterThree && !lockedAfterSuccess
  {
    var user := new UserDomain(1, "alice", true, Regular);
    lockedBefore := user.IsLocked();
    user.RecordLoginAttempt(false, now);
    user.RecordLoginAttempt(false, now);
    lockedAfterTwo := user.IsLocked();
    user.RecordLoginAttempt(false, now);
    lockedAfterThree := user.IsLocked();
    user.RecordLoginAttempt(true, now);
    lockedAfterSuccess := user.IsLocked();
  }
}
