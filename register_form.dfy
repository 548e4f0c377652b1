/** The registration form of frontend/app/components/register.tsx: the form state, the
    one-field update of `handleFormChange`, the validation chain of `handleSubmit`, and the
    handling of the backend's reply in `register`. The `fetch` itself is left to the caller:
    `HandleSubmit` hands back the body it would post, and `HandleReply` takes the parsed
    reply. */
module RegisterForm {
  import opened Js
  import opened EmailPatterns
  import ValidationSchemas
  import AuthRoutes

  /** `formData`. */
  datatype FormData = FormData(email: string, password: string, passwordRepeat: string,
                               fullName: string, nickname: string)

  /** The `name` attributes of the form's inputs. */
  datatype Field = Email | Password | PasswordRepeat | FullName | Nickname

  function Get(d: FormData, f: Field): string {
    match f
    case Email => d.email
    case Password => d.password
    case PasswordRepeat => d.passwordRepeat
    case FullName => d.fullName
    case Nickname => d.nickname
  }

  /** `{ ...prevFormData, [name]: value }`: the named field takes the value, the others keep theirs. */
  function Set(d: FormData, f: Field, v: string): (r: FormData)
    ensures forall g :: Get(r, g) == if g == f then v else Get(d, g)
  {
    match f
    case Email => d.(email := v)
    case Password => d.(password := v)
    case PasswordRepeat => d.(passwordRepeat := v)
    case FullName => d.(fullName := v)
    case Nickname => d.(nickname := v)
  }

  const InvalidEmail := "Please enter a valid email address."
  const ShortPassword := "Password must be at least 6 characters."
  const PasswordMismatch := "The passwords doesn't match!"
  const ShortName := "Name must be at least 2 characters."
  const GenericFailure := "Something went wrong"

  /** The checks of `handleSubmit` in order: email pattern, password length, equal passwords,
      name length. Only the first that fails gives its message; the nickname is not checked. */
  function Validate(d: FormData): (err: Option<string>)
    ensures err.None? <==> (MatchesPattern(d.email) && Utf16Length(d.password) >= 6
                            && d.password == d.passwordRepeat && Utf16Length(d.fullName) >= 2)
    ensures err == Some(InvalidEmail) <==> !MatchesPattern(d.email)
    ensures err == Some(ShortPassword) <==> (MatchesPattern(d.email) && Utf16Length(d.password) < 6)
    ensures err == Some(PasswordMismatch) <==>
      (MatchesPattern(d.email) && Utf16Length(d.password) >= 6 && d.password != d.passwordRepeat)
    ensures err == Some(ShortName) <==>
      (MatchesPattern(d.email) && Utf16Length(d.password) >= 6 && d.password == d.passwordRepeat
       && Utf16Length(d.fullName) < 2)
  {
    EmailPatternIff(d.email);
    if !ValidEmail(d.email) then Some(InvalidEmail)
    else if Utf16Length(d.password) < 6 then Some(ShortPassword)
    else if d.password != d.passwordRepeat then Some(PasswordMismatch)
    else if Utf16Length(d.fullName) < 2 then Some(ShortName)
    else None
  }

  /** `JSON.stringify(formData)` as the register route reads it. */
  function ToBody(d: FormData): ValidationSchemas.RegisterBody {
    ValidationSchemas.RegisterBody(d.fullName, d.nickname, d.email, d.password, d.passwordRepeat)
  }

  /** The fields of the parsed reply the form looks at. */
  datatype RegisterReply = RegisterReply(success: Option<string>, error: Option<string>)

  class RegisterForm {
    var formData: FormData
    var error: string
    var success: string
    var navigatedHome: bool

    constructor ()
      ensures formData == FormData("", "", "", "", "") && error == "" && success == "" && !navigatedHome
    {
      formData := FormData("", "", "", "", "");
      error := "";
      success := "";
      navigatedHome := false;
    }

    /** `handleFormChange`: only the field the event names changes. */
    method HandleFormChange(name: Field, value: string)
      modifies this
      ensures Get(formData, name) == value
      ensures forall g | g != name :: Get(formData, g) == Get(old(formData), g)
      ensures error == old(error) && success == old(success) && navigatedHome == old(navigatedHome)
    {
      formData := Set(formData, name, value);
    }

    /** `handleSubmit`: on the first failing check set its message and post nothing; when all
        pass, post the form data and leave the messages as they were. */
    method HandleSubmit() returns (posted: Option<ValidationSchemas.RegisterBody>)
      modifies this
      ensures formData == old(formData) && success == old(success) && navigatedHome == old(navigatedHome)
      ensures posted.Some? <==> Validate(formData).None?
      ensures posted.Some? ==> posted.value == ToBody(formData) && error == old(error)
      ensures posted.None? ==> error == Validate(formData).value
    {
      var err := Validate(formData);
      if err.Some? {
        error := err.value;
        return None;
      }
      posted := Some(ToBody(formData));
    }

    /** The reply handler of `register`: a `success` field wins and leads home, else an `error`
        field is shown, else the generic message. */
    method HandleReply(reply: RegisterReply)
      modifies this
      ensures formData == old(formData)
      ensures Truthy(reply.success) ==> success == reply.success.value && navigatedHome && error == old(error)
      ensures !Truthy(reply.success) && Truthy(reply.error) ==>
        error == reply.error.value && success == old(success) && navigatedHome == old(navigatedHome)
      ensures !Truthy(reply.success) && !Truthy(reply.error) ==>
        error == GenericFailure && success == old(success) && navigatedHome == old(navigatedHome)
    {
      if Truthy(reply.success) {
        success := reply.success.value;
        navigatedHome := true;
      } else if Truthy(reply.error) {
        error := reply.error.value;
      } else {
        error := GenericFailure;
      }
    }
  }

  /** A form that passes its own checks meets the schema's rules for the name and both
      passwords; the email and nickname rules are the server's alone. */
  lemma ClientChecksMeetSchema(d: FormData)
    requires Validate(d).None?
    ensures ValidationSchemas.LengthAtLeast(d.fullName, 2)
    ensures ValidationSchemas.LengthAtLeast(d.password, 6) && ValidationSchemas.LengthAtLeast(d.passwordRepeat, 6)
  {
  }

  /** A form that passes its own checks and has a nickname never meets the register route's
      empty-field or password-mismatch refusal. */
  lemma ClientChecksPassRouteChecks(d: FormData)
    requires Validate(d).None? && d.nickname != ""
    ensures AuthRoutes.RegisterRejection(ToBody(d)).None?
  {
    EmailPatternIff(d.email);
  }

  /** The nickname is not checked on this side: a form with none is posted. */
  lemma NicknameUnchecked()
    ensures Validate(FormData("a@b.c", "secret", "secret", "Al", "")).None?
  {
    assert "a@b.c" == "a" + ['@'] + "b.c";
    SplitAtFirst("a", "b.c", '@');
    SplitNone("b.c", '@');
    assert "b.c"[1] == '.';
    assert ValidEmail("a@b.c");
    Utf16LengthBmp("secret");
    Utf16LengthBmp("Al");
  }
}
