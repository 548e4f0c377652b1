/** The request schemas of backend/schemas/validationSchemas.js. A zod `min`/`max` on a
    string bounds its JavaScript `length` (UTF-16 code units); `z.email()` is a library
    predicate whose definition is not part of this model and is passed in as `isEmail`.
    Bodies are assumed to carry strings in the schema's fields (`z.string()` refuses
    anything else). */
module ValidationSchemas {
  import opened Js

  /** The body of `POST /auth/register`. */
  datatype RegisterBody = RegisterBody(fullName: string, nickname: string, email: string,
                                       password: string, passwordRepeat: string)

  /** The body of `POST /auth/login`. */
  datatype LoginBody = LoginBody(email: string, password: string)

  /** The body of an entry. */
  datatype EntryBody = EntryBody(title: string, content: string)

  /** `z.string().min(lo).max(hi)`. */
  predicate LengthBetween(s: string, lo: nat, hi: nat) {
    lo <= Utf16Length(s) <= hi
  }

  /** `z.string().min(lo)`. */
  predicate LengthAtLeast(s: string, lo: nat) {
    lo <= Utf16Length(s)
  }

  /** `registerSchema`: name of at least 2, nickname of 2 to 16, an email, and two passwords of
      at least 6 each. Whether the two passwords agree is not part of the schema. */
  predicate RegisterSchemaValid(b: RegisterBody, isEmail: string -> bool) {
    LengthAtLeast(b.fullName, 2) && LengthBetween(b.nickname, 2, 16) && isEmail(b.email)
    && LengthAtLeast(b.password, 6) && LengthAtLeast(b.passwordRepeat, 6)
  }

  /** `loginSchema`: an email and a password of at least 6. */
  predicate LoginSchemaValid(b: LoginBody, isEmail: string -> bool) {
    isEmail(b.email) && LengthAtLeast(b.password, 6)
  }

  /** `addEntrySchema`: a title of 1 to 20 and a content of 10 to 300. */
  predicate EntrySchemaValid(b: EntryBody) {
    LengthBetween(b.title, 1, 20) && LengthBetween(b.content, 10, 300)
  }

  /** `entryParamsSchema`, `/^\d+$/`: one or more ASCII digits and nothing else. */
  predicate EntryIdValid(entryId: string) {
    |entryId| >= 1 && forall i | 0 <= i < |entryId| :: '0' <= entryId[i] <= '9'
  }

  /** Every field of a body the register schema accepts is non-empty, provided `z.email()`
      refuses the empty string. */
  lemma RegisterSchemaNonEmpty(b: RegisterBody, isEmail: string -> bool)
    requires RegisterSchemaValid(b, isEmail) && !isEmail("")
    ensures b.fullName != "" && b.nickname != "" && b.email != "" && b.password != "" && b.passwordRepeat != ""
  {
  }

  /** The same for the login schema. */
  lemma LoginSchemaNonEmpty(b: LoginBody, isEmail: string -> bool)
    requires LoginSchemaValid(b, isEmail) && !isEmail("")
    ensures b.email != "" && b.password != ""
  {
  }

  /** The register schema lets two different passwords through. */
  lemma RegisterSchemaAllowsMismatch(email: string, isEmail: string -> bool)
    requires isEmail(email)
    ensures var b := RegisterBody("Al", "Al", email, "secret", "secrets");
      RegisterSchemaValid(b, isEmail) && b.password != b.passwordRepeat
  {
    Utf16LengthBmp("Al");
    Utf16LengthBmp("secret");
    Utf16LengthBmp("secrets");
  }

  /** On strings of the Basic Multilingual Plane the bounds count characters; beyond it a
      character counts twice, so at most 8 astral characters fit a 16-unit nickname. */
  lemma NicknameCodePoints(nickname: string)
    requires LengthBetween(nickname, 2, 16)
    ensures 1 <= |nickname| <= 16
    ensures (forall i | 0 <= i < |nickname| :: nickname[i] as int <= 0xFFFF) ==> 2 <= |nickname|
    ensures (forall i | 0 <= i < |nickname| :: nickname[i] as int > 0xFFFF) ==> |nickname| <= 8
  {
    AllAstral(nickname);
    Utf16LengthBmp(nickname);
  }

  lemma {:induction false} AllAstral(s: string)
    ensures (forall i | 0 <= i < |s| :: s[i] as int > 0xFFFF) ==> Utf16Length(s) == 2 * |s|
  {
    if s != [] {
      var p := s[..|s| - 1];
      AllAstral(p);
      if forall i | 0 <= i < |s| :: s[i] as int > 0xFFFF {
        assert forall i | 0 <= i < |p| :: p[i] == s[i];
      }
    }
  }

  /** In characters, an accepted entry has a title of 1 to 20 and a content of 5 to 300: a
      character counts once or twice against the bounds. */
  lemma EntryCharacterBounds(b: EntryBody)
    requires EntrySchemaValid(b)
    ensures 1 <= |b.title| <= 20 && 5 <= |b.content| <= 300
  {
  }

  /** An empty title is refused, and so is a content one code unit too long. */
  lemma EntrySchemaEdges(content: string)
    requires Utf16Length(content) == 301
    ensures !EntrySchemaValid(EntryBody("", "0123456789"))
    ensures !EntrySchemaValid(EntryBody("Quiz", content))
  {
  }

  /** The decimal rendering of any natural number is an accepted entry id. */
  lemma RenderedIdAccepted(n: nat)
    ensures EntryIdValid(NatToString(n))
  {
  }

  /** An accepted entry id without a leading zero is the decimal rendering of its value. */
  lemma {:induction false} EntryIdRoundTrip(entryId: string)
    requires EntryIdValid(entryId) && (entryId[0] != '0' || |entryId| == 1)
    ensures NatToString(DigitsValue(entryId)) == entryId
    decreases |entryId|
  {
    if |entryId| == 1 {
      SingleDigitRoundTrip(entryId);
    } else {
      var p, last := DropLastDigit(entryId);
      EntryIdRoundTrip(p);
      var v, d := DigitsValue(p), last as int - '0' as int;
      assert v >= 1 by { LeadingDigitPositive(p); }
      assert DigitsValue(entryId) == 10 * v + d by { DigitsSnoc(p, last); }
      NatToStringSnoc(v, d);
      assert DigitChar(d) == last;
    }
  }

  lemma SingleDigitRoundTrip(entryId: string)
    requires EntryIdValid(entryId) && |entryId| == 1
    ensures NatToString(DigitsValue(entryId)) == entryId
  {
    var d := entryId[0] as int - '0' as int;
    assert entryId[..0] == [];
    assert DigitsValue(entryId) == d;
    assert [DigitChar(d)] == entryId;
  }

  /** An accepted id of two or more digits, without a leading zero, is a shorter such id and
      one more digit. */
  lemma DropLastDigit(entryId: string) returns (p: string, last: char)
    requires EntryIdValid(entryId) && entryId[0] != '0' && |entryId| > 1
    ensures entryId == p + [last] && '0' <= last <= '9' && |p| < |entryId|
    ensures EntryIdValid(p) && p[0] != '0'
  {
    p, last := entryId[..|entryId| - 1], entryId[|entryId| - 1];
    assert p[0] == entryId[0];
  }

  /** The value of digits followed by one more digit. */
  lemma DigitsSnoc(p: string, c: char)
    requires EntryIdValid(p) && '0' <= c <= '9'
    ensures DigitsValue(p + [c]) == 10 * DigitsValue(p) + (c as int - '0' as int)
  {
    assert (p + [c])[..|p|] == p;
  }

  /** Appending a digit to the rendering of a positive number renders ten times it plus the digit. */
  lemma NatToStringSnoc(v: nat, d: nat)
    requires v >= 1 && d < 10
    ensures NatToString(10 * v + d) == NatToString(v) + [DigitChar(d)]
  {
    LastDigit(v, d);
  }

  lemma LastDigit(v: nat, d: nat)
    requires v >= 1 && d < 10
    ensures 10 * v + d >= 10 && (10 * v + d) / 10 == v && (10 * v + d) % 10 == d
  {
  }

  /** A digit string that does not start with `0` has a positive value. */
  lemma {:induction false} LeadingDigitPositive(s: string)
    requires EntryIdValid(s) && s[0] != '0'
    ensures DigitsValue(s) >= 1
  {
    if |s| > 1 {
      var p := s[..|s| - 1];
      assert EntryIdValid(p) && p[0] == s[0];
      LeadingDigitPositive(p);
    } else {
      assert s[..0] == [];
    }
  }
}
