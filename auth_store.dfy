/** The client's authentication store: four fields and the actions that set
    them. The outcomes of the awaited service calls are parameters. */
module AuthStore {
  import opened Js

  datatype User = User(id: string, name: string, email: string)

  /** What an awaited `authService.login` or `authService.register` call gives:
      the user, or a rejection carrying the server's optional message
      (`error.response?.data?.message`). */
  datatype ServiceResult = Success(user: User) | Failure(message: Option<string>)

  const LOGIN_FALLBACK := "Failed to login"
  const REGISTER_FALLBACK := "Failed to register"

  class Store {
    var user: Option<User>
    var isAuthenticated: bool
    var isLoading: bool
    var error: Option<string>

    /** The store never claims to be authenticated without a user. */
    ghost predicate Valid()
      reads this
    {
      isAuthenticated ==> user.Some?
    }

    /** The initial state: no user, not authenticated, loading, no error. */
    constructor ()
      ensures Valid()
      ensures user == None && !isAuthenticated && isLoading && error == None
    {
      user, isAuthenticated, isLoading, error := None, false, true, None;
    }

    /** The body shared by `login` and `register`: mark loading and clear the
        error, then apply the service's outcome; `fallback` is the message used
        when a rejection carries none. */
    method SignIn(outcome: ServiceResult, fallback: string)
      requires Valid()
      modifies this
      ensures Valid()
      ensures outcome.Success? ==>
        user == Some(outcome.user) && isAuthenticated && !isLoading && error == None
      ensures outcome.Failure? ==>
        && user == old(user) && !isAuthenticated && !isLoading
        && error == Some(Or(outcome.message, fallback))
    {
      isLoading, error := true, None;
      assert Valid();
      match outcome {
        case Success(u) =>
          user, isAuthenticated, isLoading := Some(u), true, false;
        case Failure(message) =>
          error, isLoading, isAuthenticated := Some(Or(message, fallback)), false, false;
      }
    }

    /** `login`. */
    method Login(outcome: ServiceResult)
      requires Valid()
      modifies this
      ensures Valid()
      ensures outcome.Success? ==>
        user == Some(outcome.user) && isAuthenticated && !isLoading && error == None
      ensures outcome.Failure? ==>
        && user == old(user) && !isAuthenticated && !isLoading
        && error == Some(Or(outcome.message, LOGIN_FALLBACK))
    {
      SignIn(outcome, LOGIN_FALLBACK);
    }

    /** `register`. */
    method Register(outcome: ServiceResult)
      requires Valid()
      modifies this
      ensures Valid()
      ensures outcome.Success? ==>
        user == Some(outcome.user) && isAuthenticated && !isLoading && error == None
      ensures outcome.Failure? ==>
        && user == old(user) && !isAuthenticated && !isLoading
        && error == Some(Or(outcome.message, REGISTER_FALLBACK))
    {
      SignIn(outcome, REGISTER_FALLBACK);
    }

    /** `logout`: forget the user; loading and error stay as they were. */
    method Logout()
      requires Valid()
      modifies this
      ensures Valid()
      ensures user == None && !isAuthenticated
      ensures isLoading == old(isLoading) && error == old(error)
    {
      user, isAuthenticated := None, false;
    }

    /** `checkAuth`: `tokenValid` is what `authService.isAuthenticated()` answers
        and `current` what `authService.getCurrentUser()` resolves to. */
    method CheckAuth(tokenValid: bool, current: Option<User>)
      requires Valid()
      modifies this
      ensures Valid()
      ensures !isLoading && error == old(error)
      ensures isAuthenticated <==> tokenValid && current.Some?
      ensures isAuthenticated ==> user == current
      ensures !isAuthenticated ==> user == None
    {
      isLoading := true;
      if tokenValid {
        if current.Some? {
          user, isAuthenticated := current, true;
        } else {
          user, isAuthenticated := None, false;
        }
      } else {
        user, isAuthenticated := None, false;
      }
      isLoading := false;
    }

    /** `clearError`: only the error changes. */
    method ClearError()
      requires Valid()
      modifies this
      ensures Valid()
      ensures error == None
      ensures user == old(user) && isAuthenticated == old(isAuthenticated) && isLoading == old(isLoading)
    {
      error := None;
    }
  }

  /** A failed login after a successful one keeps the user but drops the
      authenticated flag, and the invariant still holds. */
  method LoginTwice(s: Store, first: User, message: Option<string>)
    requires s.Valid()
    modifies s
    ensures s.Valid()
    ensures s.user == Some(first) && !s.isAuthenticated
    ensures s.error == Some(Or(message, LOGIN_FALLBACK))
  {
    s.Login(Success(first));
    s.Login(Failure(message));
  }
}
