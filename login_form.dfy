/** The login form of frontend/app/components/loginForm.tsx: its two inputs, the validation
    chain of `handleSubmit`, and the handling of the backend's reply in `login`. As with the
    registration form, the `fetch` is left to the caller. */
module LoginForm {
  import opened Js
  import opened EmailPatterns
  import ValidationSchemas
  import RegisterForm

  const InvalidEmail := "Please enter a valid email address."
  const ShortPassword := "Password must be at least 6 characters."
  const RetryLater := "Something went wrong, please try again later."
  const LoggedIn := "You are logged in!"

  /** The checks of `handleSubmit` in order: the same email pattern as registration, then the
      password length. */
  function Validate(email: string, password: string): (err: Option<string>)
    ensures err.None? <==> (MatchesPattern(email) && Utf16Length(password) >= 6)
    ensures err == Some(InvalidEmail) <==> !MatchesPattern(email)
    ensures err == Some(ShortPassword) <==> (MatchesPattern(email) && Utf16Length(password) < 6)
  {
    EmailPatternIff(email);
    if !ValidEmail(email) then Some(InvalidEmail)
    else if Utf16Length(password) < 6 then Some(ShortPassword)
    else None
  }

  /** A login the form refuses is refused with the same message by the registration form,
      whatever the other registration fields hold. */
  lemma SameFirstChecksAsRegister(email: string, password: string, d: RegisterForm.FormData)
    requires Validate(email, password).Some? && d.email == email && d.password == password
    ensures RegisterForm.Validate(d) == Validate(email, password)
  {
  }

  /** The fields of the parsed reply the form looks at. */
  datatype LoginReply = LoginReply(token: Option<string>, error: Option<string>)

  class LoginForm {
    var email: string
    var password: string
    var error: string
    var success: string
    var storedToken: Option<string>
    var isLoggedIn: bool
    var navigatedHome: bool

    constructor (storedToken: Option<string>, isLoggedIn: bool)
      ensures email == "" && password == "" && error == "" && success == ""
      ensures this.storedToken == storedToken && this.isLoggedIn == isLoggedIn && !navigatedHome
    {
      email := "";
      password := "";
      error := "";
      success := "";
      this.storedToken := storedToken;
      this.isLoggedIn := isLoggedIn;
      navigatedHome := false;
    }

    /** The email input's `onChange`. */
    method SetEmail(value: string)
      modifies this
      ensures email == value && password == old(password) && error == old(error)
      ensures success == old(success) && storedToken == old(storedToken) && isLoggedIn == old(isLoggedIn)
      ensures navigatedHome == old(navigatedHome)
    {
      email := value;
    }

    /** The password input's `onChange`. */
    method SetPassword(value: string)
      modifies this
      ensures password == value && email == old(email) && error == old(error)
      ensures success == old(success) && storedToken == old(storedToken) && isLoggedIn == old(isLoggedIn)
      ensures navigatedHome == old(navigatedHome)
    {
      password := value;
    }

    /** `handleSubmit`: on the first failing check set its message and post nothing; when both
        pass, post the email and password. */
    method HandleSubmit() returns (posted: Option<ValidationSchemas.LoginBody>)
      modifies this
      ensures email == old(email) && password == old(password) && success == old(success)
      ensures storedToken == old(storedToken) && isLoggedIn == old(isLoggedIn) && navigatedHome == old(navigatedHome)
      ensures posted.Some? <==> Validate(email, password).None?
      ensures posted.Some? ==> posted.value == ValidationSchemas.LoginBody(email, password) && error == old(error)
      ensures posted.None? ==> error == Validate(email, password).value
    {
      var err := Validate(email, password);
      if err.Some? {
        error := err.value;
        return None;
      }
      posted := Some(ValidationSchemas.LoginBody(email, password));
    }

    /** The reply handler of `login`: a token is stored and logs the user in, whatever else the
        reply holds; without one an `error` field is shown, else the retry message. */
    method HandleReply(reply: LoginReply)
      modifies this
      ensures email == old(email) && password == old(password)
      ensures Truthy(reply.token) ==>
        && storedToken == reply.token && isLoggedIn && error == "" && success == LoggedIn && navigatedHome
      ensures !Truthy(reply.token) ==>
        && storedToken == old(storedToken) && isLoggedIn == old(isLoggedIn)
        && success == old(success) && navigatedHome == old(navigatedHome)
        && error == if Truthy(reply.error) then reply.error.value else RetryLater
    {
      if Truthy(reply.token) {
        storedToken := reply.token;
        isLoggedIn := true;
        success := LoggedIn;
        error := "";
        navigatedHome := true;
      } else if Truthy(reply.error) {
        error := reply.error.value;
      } else {
        error := RetryLater;
      }
    }
  }
}
