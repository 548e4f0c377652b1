/** The challenge dialog of frontend/app/components/ChallengeFriendModal.tsx. Sending is not
    implemented there: a valid address only marks the challenge as sent, after a timer that
    this model collapses into the handler itself. */
module ChallengeModal {
  import opened Js
  import opened EmailPatterns
  import LoginForm

  const InvalidEmail := "Please enter a valid email address."

  class ChallengeModal {
    var email: string
    var sent: bool
    var error: string

    constructor ()
      ensures email == "" && !sent && error == ""
    {
      email := "";
      sent := false;
      error := "";
    }

    /** The email input's `onChange`. */
    method SetEmail(value: string)
      modifies this
      ensures email == value && sent == old(sent) && error == old(error)
    {
      email := value;
    }

    /** `handleSend`: clear the error and the sent flag, then refuse an address the whitespace-free
        pattern does not match, or mark the challenge sent. */
    method HandleSend()
      modifies this
      ensures email == old(email)
      ensures !MatchesChallengePattern(email) ==> error == InvalidEmail && !sent
      ensures MatchesChallengePattern(email) ==> error == "" && sent
    {
      ChallengePatternIff(email);
      error := "";
      sent := false;
      if !ValidChallengeEmail(email) {
        error := InvalidEmail;
        return;
      }
      sent := true;
    }
  }

  /** With a long enough password, an address the dialog accepts passes the login form's checks. */
  lemma DialogAddressPassesLogin(email: string, password: string)
    requires MatchesChallengePattern(email) && Utf16Length(password) >= 6
    ensures LoginForm.Validate(email, password).None?
  {
    ChallengeStricter(email);
  }

  /** The converse fails: the login form passes an address with a space that the dialog refuses. */
  lemma LoginAddressRefusedByDialog()
    ensures LoginForm.Validate("a b@c.d", "secret").None? && !MatchesChallengePattern("a b@c.d")
  {
    SpaceOnlyRejectedByChallenge();
    EmailPatternIff("a b@c.d");
    ChallengePatternIff("a b@c.d");
    Utf16LengthBmp("secret");
  }
}
