/** The authentication form checks of forumClient/src/composables/useAuthValidation.ts. A form
    is the set of fields it has, each holding a string; the validators write one message per
    field into `validationErrors`, where '' means the field is acceptable. */
module AuthValidation {

  import opened Base
  import opened Strings

  type Form = map<string, string>
  type Errors = map<string, string>

  // ---------------------------------------------------------------- the two regular expressions

  /** `[^\s@]`. */
  predicate Plain(c: char)
  {
    !IsSpace(c) && c != '@'
  }

  /** `[^\s@]+`. */
  predicate PlainRun(s: string)
  {
    s != "" && forall i :: 0 <= i < |s| ==> Plain(s[i])
  }

  /** `/^[^\s@]+@[^\s@]+\.[^\s@]+$/`: no white space, exactly one '@', not first, and after it
      a '.' that is neither the first nor the last character of the domain. */
  predicate EmailFormat(s: string)
  {
    && (forall i :: 0 <= i < |s| ==> !IsSpace(s[i]))
    && exists i :: 0 < i < |s| && s[i] == '@'
         && (forall j :: 0 <= j < |s| && j != i ==> s[j] != '@')
         && exists k :: i + 1 < k < |s| - 1 && s[k] == '.'
  }

  /** Every match of the pattern is a match of `EmailFormat`. */
  lemma EmailFormatFromParts(a: string, b: string, c: string)
    requires PlainRun(a) && PlainRun(b) && PlainRun(c)
    ensures EmailFormat(a + "@" + b + "." + c)
  {
    var s := a + "@" + b + "." + c;
    var i := |a|;
    var k := |a| + 1 + |b|;
    assert s[i] == '@' && s[k] == '.';
    forall j | 0 <= j < |s| ensures !IsSpace(s[j]) && (j != i ==> s[j] != '@') {
      if j < i { assert s[j] == a[j]; }
      else if i < j < k { assert s[j] == b[j - i - 1]; }
      else if k < j { assert s[j] == c[j - k - 1]; }
    }
  }

  /** And every string `EmailFormat` accepts splits as the pattern reads it. */
  lemma EmailFormatToParts(s: string) returns (a: string, b: string, c: string)
    requires EmailFormat(s)
    ensures PlainRun(a) && PlainRun(b) && PlainRun(c)
    ensures s == a + "@" + b + "." + c
  {
    var i :| 0 < i < |s| && s[i] == '@'
         && (forall j :: 0 <= j < |s| && j != i ==> s[j] != '@')
         && exists k :: i + 1 < k < |s| - 1 && s[k] == '.';
    var k :| i + 1 < k < |s| - 1 && s[k] == '.';
    a, b, c := s[..i], s[i + 1..k], s[k + 1..];
    assert forall j :: 0 <= j < |a| ==> a[j] == s[j];
    assert forall j :: 0 <= j < |b| ==> b[j] == s[i + 1 + j];
    assert forall j :: 0 <= j < |c| ==> c[j] == s[k + 1 + j];
    CutTwice(s, i, k);
  }

  /** A string cut at its '@' at `i` and its '.' at `k`. */
  lemma CutTwice(s: string, i: int, k: int)
    requires 0 <= i < k < |s| && s[i] == '@' && s[k] == '.'
    ensures s == s[..i] + "@" + s[i + 1..k] + "." + s[k + 1..]
  {
    assert s[..k] == s[..i] + "@" + s[i + 1..k];
    assert s == s[..k] + "." + s[k + 1..];
  }

  /** A line terminator, which `.` does not match. */
  predicate LineBreak(c: char)
  {
    c == '\n' || c == '\r' || c == '\U{2028}' || c == '\U{2029}'
  }

  /** The text before the first line terminator. */
  function FirstLine(s: string): (l: string)
    ensures |l| <= |s| && l == s[..|l|]
    ensures forall i :: 0 <= i < |l| ==> !LineBreak(l[i])
    ensures |l| == |s| || LineBreak(s[|l|])
  {
    if s == "" || LineBreak(s[0]) then "" else [s[0]] + FirstLine(s[1..])
  }

  predicate IsLower(c: char) { 'a' <= c <= 'z' }
  predicate IsUpper(c: char) { 'A' <= c <= 'Z' }
  predicate IsSpecial(c: char) { c in "!@#$%^&*" }

  /** `/^(?=.*[a-z])(?=.*[A-Z])(?=.*[!@#$%^&*])/`: each look-ahead must find its character
      before the first line terminator. */
  predicate PasswordPattern(s: string)
  {
    var l := FirstLine(s);
    && (exists i :: 0 <= i < |l| && IsLower(l[i]))
    && (exists i :: 0 <= i < |l| && IsUpper(l[i]))
    && (exists i :: 0 <= i < |l| && IsSpecial(l[i]))
  }

  /** On a single line the pattern asks for one lower-case letter, one capital and one of
      `!@#$%^&*`, anywhere. */
  lemma PasswordPatternOneLine(s: string)
    requires forall i :: 0 <= i < |s| ==> !LineBreak(s[i])
    ensures PasswordPattern(s) <==>
      (exists i :: 0 <= i < |s| && IsLower(s[i]))
      && (exists i :: 0 <= i < |s| && IsUpper(s[i]))
      && (exists i :: 0 <= i < |s| && IsSpecial(s[i]))
  {
    assert FirstLine(s) == s;
  }

  /** A character after a line break does not count. */
  lemma SpecialAfterBreakIgnored()
    ensures !PasswordPattern("aB\n!")
  {
    var s := "aB\n!";
    assert s[2] == '\n';
    assert FirstLine(s[2..]) == "";
    assert FirstLine(s) == "aB";
    assert !IsSpecial('a') && !IsSpecial('B');
  }

  // ---------------------------------------------------------------- the messages

  const UsernameRequired := "Le pseudo est requis."
  const UsernameLength := "Le pseudo doit contenir entre 3 et 64 caractères."
  const EmailRequired := "L'email est requis."
  const EmailInvalid := "Le format de l'email est invalide."
  const EmailTooLong := "L'email ne doit pas dépasser 64 caractères."
  const ConfirmEmailRequired := "La confirmation d'email est requise."
  const ConfirmEmailInvalid := "Le format de l'email de confirmation est invalide."
  const EmailMismatch := "Les adresses email ne correspondent pas."
  const PasswordRequired := "Le mot de passe est requis."
  const PasswordLength := "Le mot de passe doit contenir entre 8 et 256 caractères."
  const PasswordWeak := "Le mot de passe doit contenir au moins une minuscule, une majuscule et un caractère spécial (!@#$%^&*)."
  const ConfirmPasswordRequired := "La confirmation du mot de passe est requise."
  const PasswordMismatch := "Les mots de passe ne correspondent pas."
  const CurrentPasswordRequired := "Le mot de passe actuel est requis."

  /** `form.value[name]`: `undefined` for a field the form does not have. */
  function Get(form: Form, name: string): Option<string>
  {
    if name in form then Some(form[name]) else None
  }

  /** `!v` on an optional string. */
  predicate Blank(v: Option<string>)
  {
    v.None? || v.value == ""
  }

  function UsernameError(v: string): (m: string)
    ensures m == "" <==> 3 <= |v| <= 64
  {
    if v == "" then UsernameRequired
    else if |v| < 3 || |v| > 64 then UsernameLength
    else ""
  }

  /** Format before length: a long malformed address reports its format. */
  function EmailError(v: string): (m: string)
    ensures m == "" <==> EmailFormat(v) && |v| <= 64
    ensures v == "" ==> m == EmailRequired
    ensures v != "" && !EmailFormat(v) ==> m == EmailInvalid
  {
    if v == "" then EmailRequired
    else if !EmailFormat(v) then EmailInvalid
    else if |v| > 64 then EmailTooLong
    else ""
  }

  function ConfirmEmailError(c: string, email: Option<string>): (m: string)
    ensures m == "" <==> EmailFormat(c) && email == Some(c)
    ensures c == "" ==> m == ConfirmEmailRequired
  {
    if c == "" then ConfirmEmailRequired
    else if !EmailFormat(c) then ConfirmEmailInvalid
    else if Some(c) != email then EmailMismatch
    else ""
  }

  function PasswordError(v: Option<string>): (m: string)
    ensures m == "" <==> v.Some? && 8 <= |v.value| <= 256 && PasswordPattern(v.value)
    ensures Blank(v) ==> m == PasswordRequired
  {
    if Blank(v) then PasswordRequired
    else if |v.value| < 8 || |v.value| > 256 then PasswordLength
    else if !PasswordPattern(v.value) then PasswordWeak
    else ""
  }

  function ConfirmPasswordError(c: Option<string>, password: Option<string>): (m: string)
    ensures m == "" <==> !Blank(c) && c == password
  {
    if Blank(c) then ConfirmPasswordRequired
    else if c != password then PasswordMismatch
    else ""
  }

  function CurrentPasswordError(v: string): (m: string)
    ensures m == "" <==> v != ""
  {
    if v == "" then CurrentPasswordRequired else ""
  }

  // ---------------------------------------------------------------- what each validator writes

  /** The password field checked: `newPassword` when the form has it, else `password`. */
  function PasswordField(form: Form): string
  {
    if "newPassword" in form then "newPassword" else "password"
  }

  /** The confirmation field checked: `confirmNewPassword` when the form has it, else
      `confirmPassword`. */
  function ConfirmField(form: Form): string
  {
    if "confirmNewPassword" in form then "confirmNewPassword" else "confirmPassword"
  }

  predicate HasConfirm(form: Form)
  {
    "confirmPassword" in form || "confirmNewPassword" in form
  }

  function UsernameStep(form: Form, e: Errors): Errors
  {
    if "username" in form then e["username" := UsernameError(form["username"])] else e
  }

  function ConfirmEmailStep(form: Form, e: Errors): Errors
  {
    if "confirmEmail" in form then e["confirmEmail" := ConfirmEmailError(form["confirmEmail"], Get(form, "email"))]
    else e
  }

  function EmailStep(form: Form, e: Errors): Errors
  {
    if "email" in form then ConfirmEmailStep(form, e["email" := EmailError(form["email"])]) else e
  }

  function ConfirmPasswordStep(form: Form, e: Errors): Errors
  {
    e[ConfirmField(form) := ConfirmPasswordError(Get(form, ConfirmField(form)), Get(form, PasswordField(form)))]
  }

  function PasswordStep(form: Form, e: Errors): Errors
  {
    var e1 := e[PasswordField(form) := PasswordError(Get(form, PasswordField(form)))];
    if HasConfirm(form) then ConfirmPasswordStep(form, e1) else e1
  }

  function CurrentPasswordStep(form: Form, e: Errors): Errors
  {
    if "currentPassword" in form then e["currentPassword" := CurrentPasswordError(form["currentPassword"])] else e
  }

  /** `validateAllFields`: each validator whose field the form has, in the source's order. */
  function AllStep(form: Form, e: Errors): Errors
  {
    var e1 := UsernameStep(form, e);
    var e2 := EmailStep(form, e1);
    var e3 := ConfirmEmailStep(form, e2);
    var e4 := if "password" in form || "newPassword" in form then PasswordStep(form, e3) else e3;
    var e5 := if HasConfirm(form) then ConfirmPasswordStep(form, e4) else e4;
    CurrentPasswordStep(form, e5)
  }

  /** `isFormValid`: every recorded message is ''. */
  predicate IsFormValid(e: Errors)
  {
    forall k :: k in e ==> e[k] == ""
  }

  /** Before any validator runs the form counts as valid. */
  lemma InitiallyValid()
    ensures IsFormValid(map[])
  {
  }

  /** `e1` and `e2` agree outside `keys`. */
  ghost predicate Agree(e1: Errors, e2: Errors, keys: set<string>)
  {
    forall k :: k !in keys ==> (k in e1 <==> k in e2) && (k in e1 ==> e1[k] == e2[k])
  }

  /** Each validator writes only its own key and its paired confirmation key, and one whose
      field the form lacks writes nothing. */
  lemma StepsWriteOwnKeys(form: Form, e: Errors)
    ensures Agree(UsernameStep(form, e), e, {"username"})
    ensures Agree(EmailStep(form, e), e, {"email", "confirmEmail"})
    ensures Agree(ConfirmEmailStep(form, e), e, {"confirmEmail"})
    ensures Agree(PasswordStep(form, e), e, {PasswordField(form), ConfirmField(form)})
    ensures Agree(ConfirmPasswordStep(form, e), e, {ConfirmField(form)})
    ensures Agree(CurrentPasswordStep(form, e), e, {"currentPassword"})
    ensures "username" !in form ==> UsernameStep(form, e) == e
    ensures "email" !in form ==> EmailStep(form, e) == e
    ensures "confirmEmail" !in form ==> ConfirmEmailStep(form, e) == e
    ensures "currentPassword" !in form ==> CurrentPasswordStep(form, e) == e
  {
  }

  /** Every field of the form is acceptable. */
  predicate FieldsAcceptable(form: Form)
  {
    && ("username" in form ==> 3 <= |form["username"]| <= 64)
    && ("email" in form ==> EmailFormat(form["email"]) && |form["email"]| <= 64)
    && ("confirmEmail" in form ==> EmailFormat(form["confirmEmail"]) && Get(form, "email") == Some(form["confirmEmail"]))
    && ("password" in form || "newPassword" in form ==>
          var p := Get(form, PasswordField(form));
          p.Some? && 8 <= |p.value| <= 256 && PasswordPattern(p.value))
    && (HasConfirm(form) ==>
          !Blank(Get(form, ConfirmField(form))) && Get(form, ConfirmField(form)) == Get(form, PasswordField(form)))
    && ("currentPassword" in form ==> form["currentPassword"] != "")
  }

  /** `e` holds, for each field the form has, that field's validator message, and no key
      outside the form's fields and the two password keys. */
  ghost predicate Messages(form: Form, e: Errors)
  {
      && ("username" in form ==> "username" in e && e["username"] == UsernameError(form["username"]))
      && ("email" in form ==> "email" in e && e["email"] == EmailError(form["email"]))
      && ("confirmEmail" in form ==>
            ("confirmEmail" in e && e["confirmEmail"] == ConfirmEmailError(form["confirmEmail"], Get(form, "email"))))
      && ("password" in form || "newPassword" in form ==>
            (PasswordField(form) in e && e[PasswordField(form)] == PasswordError(Get(form, PasswordField(form)))))
      && (HasConfirm(form) ==>
            (ConfirmField(form) in e
             && e[ConfirmField(form)] == ConfirmPasswordError(Get(form, ConfirmField(form)), Get(form, PasswordField(form)))))
      && ("currentPassword" in form ==>
            ("currentPassword" in e && e["currentPassword"] == CurrentPasswordError(form["currentPassword"])))
      && (forall k :: k in e ==> WrittenKey(form, k))
  }

  /** The keys the validators write for a form: each of the four plain fields it has, the
      password key when it has a password field, the confirmation key when it has one. */
  predicate WrittenKey(form: Form, k: string)
  {
    || ((k == "username" || k == "email" || k == "confirmEmail" || k == "currentPassword") && k in form)
    || (k == PasswordField(form) && ("password" in form || "newPassword" in form))
    || (k == ConfirmField(form) && HasConfirm(form))
  }

  /** The message `validateAllFields` leaves for each field the form has. */
  lemma AllStepMessages(form: Form)
    ensures Messages(form, AllStep(form, map[]))
  {
    if "username" in form { AllStepUsername(form); }
    if "email" in form { AllStepEmail(form); }
    if "confirmEmail" in form { AllStepConfirmEmail(form); }
    if "password" in form || "newPassword" in form { AllStepPassword(form); }
    if HasConfirm(form) { AllStepConfirmPassword(form); }
    if "currentPassword" in form { AllStepCurrentPassword(form); }
    AllStepDomain(form);
  }

  lemma AllStepUsername(form: Form)
    requires "username" in form
    ensures var e := AllStep(form, map[]);
      "username" in e && e["username"] == UsernameError(form["username"])
  {
  }

  lemma AllStepEmail(form: Form)
    requires "email" in form
    ensures var e := AllStep(form, map[]);
      "email" in e && e["email"] == EmailError(form["email"])
  {
    var e2 := EmailStep(form, UsernameStep(form, map[]));
    assert e2["email"] == EmailError(form["email"]);
  }

  lemma AllStepConfirmEmail(form: Form)
    requires "confirmEmail" in form
    ensures var e := AllStep(form, map[]);
      "confirmEmail" in e && e["confirmEmail"] == ConfirmEmailError(form["confirmEmail"], Get(form, "email"))
  {
  }

  lemma AllStepPassword(form: Form)
    requires "password" in form || "newPassword" in form
    ensures var e := AllStep(form, map[]);
      PasswordField(form) in e && e[PasswordField(form)] == PasswordError(Get(form, PasswordField(form)))
  {
  }

  lemma AllStepConfirmPassword(form: Form)
    requires HasConfirm(form)
    ensures var e := AllStep(form, map[]);
      ConfirmField(form) in e
      && e[ConfirmField(form)] == ConfirmPasswordError(Get(form, ConfirmField(form)), Get(form, PasswordField(form)))
  {
  }

  lemma AllStepCurrentPassword(form: Form)
    requires "currentPassword" in form
    ensures var e := AllStep(form, map[]);
      "currentPassword" in e && e["currentPassword"] == CurrentPasswordError(form["currentPassword"])
  {
  }

  lemma AllStepDomain(form: Form)
    ensures var e := AllStep(form, map[]);
      forall k :: k in e ==> WrittenKey(form, k)
  {
  }

  /** After `validateAllFields` on a fresh form, `isFormValid` holds exactly when every field
      the form has is acceptable. */
  lemma AllFieldsVerdict(form: Form)
    ensures IsFormValid(AllStep(form, map[])) <==> FieldsAcceptable(form)
  {
    AllStepMessages(form);
    MessagesVerdict(form, AllStep(form, map[]));
  }

  /** Messages that are all '' are exactly the acceptable fields. */
  lemma MessagesVerdict(form: Form, e: Errors)
    requires Messages(form, e)
    ensures IsFormValid(e) <==> FieldsAcceptable(form)
  {
    if FieldsAcceptable(form) {
      forall k | k in e ensures e[k] == "" {
        assert WrittenKey(form, k);
      }
    }
  }

  /** The composable's state: the form it is given and the messages it has written. */
  class Validator {
    var form: Form
    var errors: Errors

    constructor (form: Form)
      ensures this.form == form && errors == map[]
    {
      this.form := form;
      errors := map[];
    }

    /** `isFormValid`. */
    function IsValid(): (ok: bool)
      reads this
      ensures ok <==> forall k :: k in errors ==> errors[k] == ""
    {
      IsFormValid(errors)
    }

    method ValidateUsername()
      modifies this
      ensures form == old(form) && errors == UsernameStep(form, old(errors))
    {
      if "username" in form {
        errors := errors["username" := UsernameError(form["username"])];
      }
    }

    method ValidateEmail()
      modifies this
      ensures form == old(form) && errors == EmailStep(form, old(errors))
    {
      if "email" in form {
        errors := errors["email" := EmailError(form["email"])];
        if "confirmEmail" in form {
          ValidateConfirmEmail();
        }
      }
    }

    method ValidateConfirmEmail()
      modifies this
      ensures form == old(form) && errors == ConfirmEmailStep(form, old(errors))
    {
      if "confirmEmail" in form {
        errors := errors["confirmEmail" := ConfirmEmailError(form["confirmEmail"], Get(form, "email"))];
      }
    }

    method ValidatePassword()
      modifies this
      ensures form == old(form) && errors == PasswordStep(form, old(errors))
    {
      var name := if "newPassword" in form then "newPassword" else "password";
      errors := errors[name := PasswordError(Get(form, name))];
      if "confirmPassword" in form || "confirmNewPassword" in form {
        ValidateConfirmPassword();
      }
    }

    method ValidateConfirmPassword()
      modifies this
      ensures form == old(form) && errors == ConfirmPasswordStep(form, old(errors))
    {
      var confirmName := if "confirmNewPassword" in form then "confirmNewPassword" else "confirmPassword";
      var name := if "newPassword" in form then "newPassword" else "password";
      errors := errors[confirmName := ConfirmPasswordError(Get(form, confirmName), Get(form, name))];
    }

    method ValidateCurrentPassword()
      modifies this
      ensures form == old(form) && errors == CurrentPasswordStep(form, old(errors))
    {
      if "currentPassword" in form {
        errors := errors["currentPassword" := CurrentPasswordError(form["currentPassword"])];
      }
    }

    method ValidateAllFields()
      modifies this
      ensures form == old(form) && errors == AllStep(form, old(errors))
    {
      if "username" in form { ValidateUsername(); }
      if "email" in form { ValidateEmail(); }
      if "confirmEmail" in form { ValidateConfirmEmail(); }
      if "password" in form || "newPassword" in form { ValidatePassword(); }
      if "confirmPassword" in form || "confirmNewPassword" in form { ValidateConfirmPassword(); }
      if "currentPassword" in form { ValidateCurrentPassword(); }
    }
  }
}
