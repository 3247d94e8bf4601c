/**
 * The request schemas: what a registration body and a login body must look like before
 * the service sees them. Every member of a body is either a string or something else
 * (missing, a number, an object...); the email format check is a parameter because the
 * pattern the schema library applies is not part of this model.
 */
module Dtos {

  import opened Models

  /** A member of a JSON request body. */
  datatype Field = Str(value: string) | NotString

  datatype FieldName = NameField | EmailField | DocumentField | PasswordField

  /** One complaint of the schema, in the order the schema reports them. */
  datatype Issue =
    | NotAString(field: FieldName)
    | InvalidEmail
    | DocumentLength
    | PasswordTooShort
    | PasswordNoUppercase
    | PasswordNoLowercase
    | PasswordNoDigit
  {
    predicate IsPasswordIssue()
    {
      PasswordTooShort? || PasswordNoUppercase? || PasswordNoLowercase? || PasswordNoDigit?
    }

    /** The position of a password rule in the schema's chain of checks. */
    function Rank(): (rank: nat)
      requires IsPasswordIssue()
      ensures rank < 4
    {
      match this
      case PasswordTooShort => 0
      case PasswordNoUppercase => 1
      case PasswordNoLowercase => 2
      case PasswordNoDigit => 3
    }

    /** The password complaints carry their own text; the others take theirs from the error map. */
    function ExplicitMessage(): (message: string)
      requires IsPasswordIssue()
      ensures message == [TOO_SHORT_MESSAGE, NO_UPPERCASE_MESSAGE, NO_LOWERCASE_MESSAGE, NO_DIGIT_MESSAGE][Rank()]
    {
      match this
      case PasswordTooShort => TOO_SHORT_MESSAGE
      case PasswordNoUppercase => NO_UPPERCASE_MESSAGE
      case PasswordNoLowercase => NO_LOWERCASE_MESSAGE
      case PasswordNoDigit => NO_DIGIT_MESSAGE
    }
  }

  const TOO_SHORT_MESSAGE := "O campo [password] deve conter no mínimo 8 caracteres"
  const NO_UPPERCASE_MESSAGE := "O campo [password] deve conter no mínimo uma letra maiúscula"
  const NO_LOWERCASE_MESSAGE := "O campo [password] deve conter no mínimo uma letra minúscula"
  const NO_DIGIT_MESSAGE := "O campo [password] deve conter no mínimo um número"

  /** What validation yields: the parsed request, or every complaint. */
  datatype ParseResult<+T> = Parsed(data: T) | Rejected(issues: seq<Issue>)

  /** A registration body, once parsed; it is exactly what the store's `create` accepts. */
  type CreateUserRequest = NewUser

  datatype LoginRequest = LoginRequest(email: string, password: string)

  const MIN_PASSWORD_LENGTH := 8
  const DOCUMENT_LENGTH := 11

  /** The character classes `[A-Z]`, `[a-z]` and `\d` of the password patterns. */
  datatype CharClass = Uppercase | Lowercase | Digit

  predicate InClass(c: char, cls: CharClass)
  {
    match cls
    case Uppercase => 'A' <= c <= 'Z'
    case Lowercase => 'a' <= c <= 'z'
    case Digit => '0' <= c <= '9'
  }

  /** `s` holds a character of `cls` somewhere. */
  ghost predicate Contains(s: string, cls: CharClass)
  {
    exists i :: 0 <= i < |s| && InClass(s[i], cls)
  }

  /**
   * The search a pattern `(?=.*?[class])` performs: an unanchored lookahead succeeds at the
   * position of any character of the class, so it tries each position from the left.
   */
  function Matches(s: string, cls: CharClass): (found: bool)
    ensures found <==> Contains(s, cls)
    decreases |s|
  {
    if |s| == 0 then false
    else if InClass(s[0], cls) then true
    else
      var found := Matches(s[1..], cls);
      assert found ==> Contains(s, cls) by {
        if found {
          var i :| 0 <= i < |s[1..]| && InClass(s[1..][i], cls);
          assert InClass(s[i + 1], cls);
        }
      }
      assert Contains(s, cls) ==> found by {
        if Contains(s, cls) {
          var i :| 0 <= i < |s| && InClass(s[i], cls);
          assert i > 0 && InClass(s[1..][i - 1], cls);
        }
      }
      found
  }

  /** Every rule the registration schema puts on a password. */
  ghost predicate StrongPassword(s: string)
  {
    |s| >= MIN_PASSWORD_LENGTH && Contains(s, Uppercase) && Contains(s, Lowercase) && Contains(s, Digit)
  }

  /** The complaints about a password string: all four checks run and report in order. */
  function PasswordIssues(s: string): (issues: seq<Issue>)
    ensures issues == [] <==> StrongPassword(s)
    ensures PasswordTooShort in issues <==> |s| < MIN_PASSWORD_LENGTH
    ensures PasswordNoUppercase in issues <==> !Contains(s, Uppercase)
    ensures PasswordNoLowercase in issues <==> !Contains(s, Lowercase)
    ensures PasswordNoDigit in issues <==> !Contains(s, Digit)
    ensures forall x :: x in issues ==> x.IsPasswordIssue()
    ensures forall i, j :: 0 <= i < j < |issues| ==> issues[i].Rank() < issues[j].Rank()
  {
    (if |s| < MIN_PASSWORD_LENGTH then [PasswordTooShort] else []) +
    (if Matches(s, Uppercase) then [] else [PasswordNoUppercase]) +
    (if Matches(s, Lowercase) then [] else [PasswordNoLowercase]) +
    (if Matches(s, Digit) then [] else [PasswordNoDigit])
  }

  /** The texts a rejected password is reported with: one per broken rule, in the schema's order. */
  function PasswordMessages(s: string): (messages: seq<string>)
    ensures |messages| == |PasswordIssues(s)|
    ensures forall i :: 0 <= i < |messages| ==> messages[i] == PasswordIssues(s)[i].ExplicitMessage()
  {
    var issues := PasswordIssues(s);
    seq(|issues|, i requires 0 <= i < |issues| => issues[i].ExplicitMessage())
  }

  /** A rule's text is reported exactly when the password breaks that rule. */
  lemma PasswordMessageReported(s: string, rule: Issue)
    requires rule.IsPasswordIssue()
    ensures rule.ExplicitMessage() in PasswordMessages(s) <==> rule in PasswordIssues(s)
  {
    var issues, messages := PasswordIssues(s), PasswordMessages(s);
    if rule in issues {
      var i :| 0 <= i < |issues| && issues[i] == rule;
      assert messages[i] == rule.ExplicitMessage();
    }
    if rule.ExplicitMessage() in messages {
      var i :| 0 <= i < |messages| && messages[i] == rule.ExplicitMessage();
      MessagesDiffer(issues[i], rule);
    }
  }

  /** The four texts, each reported exactly when its rule fails. */
  lemma PasswordMessagesStateTheRules(s: string)
    ensures TOO_SHORT_MESSAGE in PasswordMessages(s) <==> |s| < MIN_PASSWORD_LENGTH
    ensures NO_UPPERCASE_MESSAGE in PasswordMessages(s) <==> !Contains(s, Uppercase)
    ensures NO_LOWERCASE_MESSAGE in PasswordMessages(s) <==> !Contains(s, Lowercase)
    ensures NO_DIGIT_MESSAGE in PasswordMessages(s) <==> !Contains(s, Digit)
    ensures PasswordMessages(s) == [] <==> StrongPassword(s)
  {
    PasswordMessageReported(s, PasswordTooShort);
    PasswordMessageReported(s, PasswordNoUppercase);
    PasswordMessageReported(s, PasswordNoLowercase);
    PasswordMessageReported(s, PasswordNoDigit);
  }

  /** Different password rules report different texts. */
  lemma MessagesDiffer(a: Issue, b: Issue)
    requires a.IsPasswordIssue() && b.IsPasswordIssue()
    ensures a.ExplicitMessage() == b.ExplicitMessage() ==> a == b
  {
    assert TOO_SHORT_MESSAGE[41] == '8' && NO_UPPERCASE_MESSAGE[41] == 'u' && NO_LOWERCASE_MESSAGE[41] == 'u' && NO_DIGIT_MESSAGE[41] == 'u';
    assert NO_UPPERCASE_MESSAGE[43] == 'a' && NO_LOWERCASE_MESSAGE[43] == 'a' && NO_DIGIT_MESSAGE[43] == ' ';
    assert NO_UPPERCASE_MESSAGE[52] == 'a' && NO_LOWERCASE_MESSAGE[52] == 'i';
  }

  /** The complaints about one string member: a non-string gets a type complaint and no other. */
  function FieldIssues(field: Field, name: FieldName, checks: string -> seq<Issue>): (issues: seq<Issue>)
  {
    match field
    case NotString => [NotAString(name)]
    case Str(s) => checks(s)
  }

  /** An element of four lists joined together is an element of one of them. */
  lemma InEitherOfFour<X>(a: seq<X>, b: seq<X>, c: seq<X>, d: seq<X>)
    ensures forall x :: x in a + b + c + d <==> x in a || x in b || x in c || x in d
  {
  }

  /**
   * `issues` holds exactly the registration complaints: the type complaint of each non-string
   * member, and the complaints of the checks of each string member.
   */
  ghost predicate ReportsRegistration(issues: seq<Issue>, name: Field, email: Field, document: Field, password: Field,
                                      isEmail: string -> bool, passwordIssues: seq<Issue>)
  {
    forall x :: x in issues <==>
      (name.NotString? && x == NotAString(NameField)) ||
      (email.NotString? && x == NotAString(EmailField)) ||
      (email.Str? && !isEmail(email.value) && x == InvalidEmail) ||
      (document.NotString? && x == NotAString(DocumentField)) ||
      (document.Str? && |document.value| != DOCUMENT_LENGTH && x == DocumentLength) ||
      (password.NotString? && x == NotAString(PasswordField)) ||
      (password.Str? && x in passwordIssues)
  }

  /**
   * Every complaint about a registration body, member by member in the schema's order:
   * a non-string member gets its type complaint, a string member the complaints of its checks.
   */
  function RegistrationIssues(name: Field, email: Field, document: Field, password: Field,
                              isEmail: string -> bool): (issues: seq<Issue>)
    ensures password.Str? ==> ReportsRegistration(issues, name, email, document, password, isEmail, PasswordIssues(password.value))
    ensures password.NotString? ==> ReportsRegistration(issues, name, email, document, password, isEmail, [])
    ensures issues == [] <==>
      name.Str? && email.Str? && document.Str? && password.Str? &&
      isEmail(email.value) && |document.value| == DOCUMENT_LENGTH && StrongPassword(password.value)
  {
    var n := FieldIssues(name, NameField, _ => []);
    var e := FieldIssues(email, EmailField, s => if isEmail(s) then [] else [InvalidEmail]);
    var d := FieldIssues(document, DocumentField, s => if |s| == DOCUMENT_LENGTH then [] else [DocumentLength]);
    var p := FieldIssues(password, PasswordField, PasswordIssues);
    InEitherOfFour(n, e, d, p);
    assert n + e + d + p != [] ==> (n + e + d + p)[0] in n + e + d + p;
    n + e + d + p
  }

  /** What such complaints say, kind by kind. */
  lemma RegistrationComplaints(issues: seq<Issue>, name: Field, email: Field, document: Field, password: Field,
                               isEmail: string -> bool, passwordIssues: seq<Issue>)
    requires forall x :: x in passwordIssues ==> x.IsPasswordIssue()
    requires ReportsRegistration(issues, name, email, document, password, isEmail, passwordIssues)
    ensures DocumentLength in issues <==> document.Str? && |document.value| != DOCUMENT_LENGTH
    ensures InvalidEmail in issues <==> email.Str? && !isEmail(email.value)
    ensures NotAString(NameField) in issues <==> name.NotString?
    ensures NotAString(EmailField) in issues <==> email.NotString?
    ensures NotAString(DocumentField) in issues <==> document.NotString?
    ensures NotAString(PasswordField) in issues <==> password.NotString?
    ensures password.Str? ==>
      forall rule: Issue :: rule.IsPasswordIssue() ==> (rule in issues <==> rule in passwordIssues)
  {
  }

  /**
   * `createUserRequestSchema`: name is any string, email must pass the format check,
   * document must have exactly 11 characters (any characters), password must be strong.
   */
  function ValidateCreateUser(name: Field, email: Field, document: Field, password: Field,
                              isEmail: string -> bool): (r: ParseResult<CreateUserRequest>)
    ensures r.Parsed? <==>
      name.Str? && email.Str? && document.Str? && password.Str? &&
      isEmail(email.value) && |document.value| == DOCUMENT_LENGTH && StrongPassword(password.value)
    ensures r.Parsed? ==> r.data == NewUser(name.value, email.value, document.value, password.value)
    ensures r.Rejected? ==> |r.issues| > 0
    ensures r.Rejected? ==> (DocumentLength in r.issues <==> document.Str? && |document.value| != DOCUMENT_LENGTH)
    ensures r.Rejected? ==> (InvalidEmail in r.issues <==> email.Str? && !isEmail(email.value))
    ensures r.Rejected? ==> (NotAString(NameField) in r.issues <==> name.NotString?)
    ensures r.Rejected? ==> (NotAString(EmailField) in r.issues <==> email.NotString?)
    ensures r.Rejected? ==> (NotAString(DocumentField) in r.issues <==> document.NotString?)
    ensures r.Rejected? ==> (NotAString(PasswordField) in r.issues <==> password.NotString?)
    ensures r.Rejected? && password.Str? ==>
      forall rule: Issue :: rule.IsPasswordIssue() ==> (rule in r.issues <==> rule in PasswordIssues(password.value))
  {
    var issues := RegistrationIssues(name, email, document, password, isEmail);
    RegistrationComplaints(issues, name, email, document, password, isEmail,
                           if password.Str? then PasswordIssues(password.value) else []);
    if issues == [] then Parsed(NewUser(name.value, email.value, document.value, password.value))
    else Rejected(issues)
  }

  /** `userLoginRequestSchema`: any two strings; the password rules do not apply here. */
  function ValidateLogin(email: Field, password: Field): (r: ParseResult<LoginRequest>)
    ensures r.Parsed? <==> email.Str? && password.Str?
    ensures r.Parsed? ==> r.data == LoginRequest(email.value, password.value)
    ensures r.Rejected? ==> r.issues == (if email.Str? then [] else [NotAString(EmailField)]) +
                                        (if password.Str? then [] else [NotAString(PasswordField)])
  {
    var issues := FieldIssues(email, EmailField, _ => []) + FieldIssues(password, PasswordField, _ => []);
    if issues == [] then Parsed(LoginRequest(email.value, password.value)) else Rejected(issues)
  }

  /** The example password of the test suite and the API documentation passes every rule. */
  lemma ExamplePasswordIsStrong()
    ensures PasswordIssues("Password@123") == []
  {
    var s := "Password@123";
    assert InClass(s[0], Uppercase) && InClass(s[1], Lowercase) && InClass(s[9], Digit);
  }
}
