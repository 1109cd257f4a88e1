/**
 * The authentication store: the reducer over `{user, status, error}`, with
 * the `clearErrors` action and the pending/fulfilled/rejected cases of the
 * register, login, check-login, logout and change-password operations. The
 * authentication service itself is not modelled; its answers are the
 * actions' payloads.
 */
module AuthSlice {
  import opened Wrappers
  import opened Types
  import ExpensesSlice

  /** `User`: the account id and its e-mail address, which may be null. */
  datatype User = User(uid: string, email: Option<string>)

  /** `AuthState`. */
  datatype State = State(user: Option<User>, status: Status, error: Option<string>)

  const InitialState := State(None, Idle, None)

  /** The actions the slice handles; `Unhandled` stands for every other
      action, such as `checkLogin.pending`. */
  datatype Action =
    | ClearErrors
    | RegisterPending
    | RegisterFulfilled(registered: User)
    | RegisterRejected(registerError: ExpensesSlice.Thrown)
    | LoginPending
    | LoginFulfilled(loggedIn: User)
    | LoginRejected(loginError: ExpensesSlice.Thrown)
    | CheckLoginFulfilled(current: Option<User>)
    | CheckLoginRejected(checkError: ExpensesSlice.Thrown)
    | LogoutPending
    | LogoutFulfilled
    | LogoutRejected(logoutError: ExpensesSlice.Thrown)
    | ChangePasswordFulfilled
    | ChangePasswordPending
    | ChangePasswordRejected(changeError: ExpensesSlice.Thrown)
    | Unhandled

  /** The slice's reducer: `clearErrors` and the `extraReducers`. A pending
      operation only sets `loading`; a new error appears only with status
      `failed`; a consistent state stays consistent. */
  function Reduce(s: State, a: Action): (r: State)
    ensures a.Unhandled? ==> r == s
    ensures IsPending(a) ==> r == s.(status := Loading)
    ensures r.error.Some? && r.error != s.error ==> r.status == Failed
    ensures Consistent(s) ==> Consistent(r)
  {
    match a
    case ClearErrors => s.(error := None)
    case RegisterPending => s.(status := Loading)
    case RegisterFulfilled(u) => s.(status := Succeeded, user := Some(u), error := None)
    case RegisterRejected(e) => s.(status := Failed, error := Some(ExpensesSlice.HandleThunkError(e)))
    case LoginPending => s.(status := Loading)
    case LoginFulfilled(u) => s.(status := Succeeded, user := Some(u), error := None)
    case LoginRejected(e) => s.(status := Failed, error := Some(ExpensesSlice.HandleThunkError(e)))
    case CheckLoginFulfilled(u) => s.(status := Succeeded, user := u, error := None)
    case CheckLoginRejected(e) => s.(status := Failed, user := None, error := Some(ExpensesSlice.HandleThunkError(e)))
    case LogoutPending => s.(status := Loading)
    case LogoutFulfilled => s.(status := Succeeded, user := None, error := None)
    case LogoutRejected(e) => s.(status := Failed, error := Some(ExpensesSlice.HandleThunkError(e)))
    case ChangePasswordFulfilled => s.(status := Succeeded, error := None)
    case ChangePasswordPending => s.(status := Loading)
    case ChangePasswordRejected(e) => s.(status := Failed, error := Some(ExpensesSlice.HandleThunkError(e)))
    case Unhandled => s
  }

  predicate IsPending(a: Action) {
    a.RegisterPending? || a.LoginPending? || a.LogoutPending? || a.ChangePasswordPending?
  }

  /** The rejections that keep the signed-in user: all but `checkLogin`'s. */
  function KeepsUserRejection(a: Action): Option<ExpensesSlice.Thrown> {
    match a
    case RegisterRejected(e) => Some(e)
    case LoginRejected(e) => Some(e)
    case LogoutRejected(e) => Some(e)
    case ChangePasswordRejected(e) => Some(e)
    case _ => None
  }

  /** `clearErrors` clears the error and changes nothing else, so applying it
      twice is applying it once. */
  lemma ClearErrorsSpec(s: State)
    ensures var r := Reduce(s, ClearErrors);
            r.error == None && r.user == s.user && r.status == s.status
    ensures Reduce(Reduce(s, ClearErrors), ClearErrors) == Reduce(s, ClearErrors)
  {
  }

  /** A pending operation sets status `loading` and keeps user and error. */
  lemma PendingSpec(s: State, a: Action)
    requires IsPending(a)
    ensures var r := Reduce(s, a);
            r.status == Loading && r.user == s.user && r.error == s.error
  {
  }

  /** A completed sign-up or sign-in records the user and clears the error. */
  lemma SignedInSpec(s: State, u: User)
    ensures Reduce(s, RegisterFulfilled(u)) == State(Some(u), Succeeded, None)
    ensures Reduce(s, LoginFulfilled(u)) == State(Some(u), Succeeded, None)
  {
  }

  /** A completed sign-out forgets the user and clears the error; a failed
      session check forgets the user and records the error. */
  lemma SignedOutSpec(s: State, e: ExpensesSlice.Thrown)
    ensures Reduce(s, LogoutFulfilled) == State(None, Succeeded, None)
    ensures Reduce(s, CheckLoginRejected(e)) == State(None, Failed, Some(ExpensesSlice.HandleThunkError(e)))
  {
  }

  /** The other rejections record the error and keep the user. */
  lemma RejectedKeepsUser(s: State, a: Action)
    requires KeepsUserRejection(a).Some?
    ensures var r := Reduce(s, a);
            && r.status == Failed
            && r.error == Some(ExpensesSlice.HandleThunkError(KeepsUserRejection(a).value))
            && r.user == s.user
  {
  }

  /** Rejecting a password change with a bare string (no signed-in user)
      records the unknown-error text, not that string. */
  lemma ChangePasswordWithoutUser(s: State)
    ensures Reduce(s, ChangePasswordRejected(ExpensesSlice.OtherValue)).error == Some(ExpensesSlice.UnknownError)
  {
  }

  /** A state that reports success, or has not started, carries no error. */
  predicate Consistent(s: State) {
    (s.status == Succeeded || s.status == Idle) ==> s.error == None
  }

  /** Every action keeps a consistent state consistent. */
  lemma ReducePreservesConsistent(s: State, a: Action)
    requires Consistent(s)
    ensures Consistent(Reduce(s, a))
  {
  }

  /** The state after the actions, applied in order. */
  function Run(s: State, actions: seq<Action>): (r: State)
    decreases |actions|
  {
    if |actions| == 0 then s else Run(Reduce(s, actions[0]), actions[1..])
  }

  lemma {:induction false} RunPreservesConsistent(s: State, actions: seq<Action>)
    requires Consistent(s)
    ensures Consistent(Run(s, actions))
    decreases |actions|
  {
    if |actions| > 0 {
      ReducePreservesConsistent(s, actions[0]);
      RunPreservesConsistent(Reduce(s, actions[0]), actions[1..]);
    }
  }

  /** Consistency holds after any run of actions from the initial state. */
  lemma InitialRunsConsistent(actions: seq<Action>)
    ensures Consistent(Run(InitialState, actions))
  {
    RunPreservesConsistent(InitialState, actions);
  }
}
