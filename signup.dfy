/**
 * The sign-up page: the three input validators written as regular expressions, and the chain of
 * checks that either reports the first problem with the form or sends the sign-up request.
 */
module Signup {
  import opened Wrappers
  import Text
  import Numbers
  import Seqs

  // ---- The validators ----

  /** One character of the class `[^\s@]`. */
  predicate IsPlain(c: char)
  {
    c != '@' && !Text.IsSpace(c)
  }

  /** `[^\s@]*`: no white space and no `@` in `t`. */
  predicate AllPlain(t: string)
  {
    forall j :: 0 <= j < |t| ==> IsPlain(t[j])
  }

  /**
   * What `/^[^\s@]+@[^\s@]+\.[^\s@]+$/` accepts, read off the pattern: a non-empty plain part,
   * `@`, a non-empty plain part, `.`, and a non-empty plain part.
   */
  ghost predicate EmailPattern(s: string)
  {
    exists i, k :: 0 < i && i + 1 < k && k + 1 < |s|
      && AllPlain(s[..i]) && s[i] == '@' && AllPlain(s[i + 1..k]) && s[k] == '.' && AllPlain(s[k + 1..])
  }

  /** The domain part has a `.` that is neither its first nor its last character. */
  predicate HasInnerDot(d: string)
  {
    |d| >= 3 && '.' in d[1..|d| - 1]
  }

  /** `validateEmail`: split at the first `@`; both sides are plain and the domain has an inner dot. */
  predicate ValidateEmail(s: string)
  {
    var i := Numbers.IndexOf(s, '@');
    0 < i < |s| && AllPlain(s[..i]) && AllPlain(s[i + 1..]) && HasInnerDot(s[i + 1..])
  }

  /** What `validateEmail` accepts, its regular expression matches. */
  lemma ValidEmailMatches(s: string)
    requires ValidateEmail(s)
    ensures EmailPattern(s)
  {
    var i := Numbers.IndexOf(s, '@');
    var d := s[i + 1..];
    var m := d[1..|d| - 1];
    var j :| 0 <= j < |m| && m[j] == '.';
    var k := i + 2 + j;
    assert s[i + 1..k] == d[..j + 1];
    assert s[k + 1..] == d[j + 2..];
    assert s[k] == '.';
    assert AllPlain(s[i + 1..k]) && AllPlain(s[k + 1..]);
  }

  lemma AllPlainConcat(a: string, b: string)
    requires AllPlain(a) && AllPlain(b)
    ensures AllPlain(a + b)
  {
    forall j | 0 <= j < |a + b| ensures IsPlain((a + b)[j]) {
      if j < |a| {
        assert (a + b)[j] == a[j];
      } else {
        assert (a + b)[j] == b[j - |a|];
      }
    }
  }

  lemma PlainHasNoAt(t: string)
    requires AllPlain(t)
    ensures '@' !in t
  {
  }

  /** A match of the regular expression with its `@` at `i` and its dot at `k` is accepted by `validateEmail`. */
  lemma MatchAtIsValid(s: string, i: int, k: int)
    requires 0 < i && i + 1 < k && k + 1 < |s|
    requires AllPlain(s[..i]) && s[i] == '@' && AllPlain(s[i + 1..k]) && s[k] == '.' && AllPlain(s[k + 1..])
    ensures ValidateEmail(s)
  {
    PlainHasNoAt(s[..i]);
    assert s[..i] + s[i..] == s;
    Numbers.IndexOfAfterPrefix(s[..i], s[i..], '@');
    var d := s[i + 1..];
    var a, b := s[i + 1..k], s[k + 1..];
    Seqs.SliceAround(s, i + 1, k, |s|);
    assert s[i + 1..|s|] == d && s[k + 1..|s|] == b;
    assert AllPlain(['.']);
    AllPlainConcat(a, ['.']);
    AllPlainConcat(a + ['.'], b);
    assert d[1..|d| - 1][|a| - 1] == '.';
  }

  /** What the regular expression matches, `validateEmail` accepts. */
  lemma MatchedEmailValid(s: string)
    requires EmailPattern(s)
    ensures ValidateEmail(s)
  {
    var i, k :| 0 < i && i + 1 < k && k + 1 < |s|
      && AllPlain(s[..i]) && s[i] == '@' && AllPlain(s[i + 1..k]) && s[k] == '.' && AllPlain(s[k + 1..]);
    MatchAtIsValid(s, i, k);
  }

  /** `validateEmail` accepts exactly what its regular expression describes. */
  lemma ValidateEmailMatchesPattern(s: string)
    ensures ValidateEmail(s) <==> EmailPattern(s)
  {
    if ValidateEmail(s) {
      ValidEmailMatches(s);
    }
    if EmailPattern(s) {
      MatchedEmailValid(s);
    }
  }

  /** `validatePhone`: `/^\d{10,15}$/`, ten to fifteen ASCII digits and nothing else. */
  predicate ValidatePhone(s: string)
  {
    10 <= |s| <= 15 && Numbers.AllDigits(s)
  }

  /** `[A-Za-z]`. */
  predicate IsLetter(c: char)
  {
    'A' <= c <= 'Z' || 'a' <= c <= 'z'
  }

  /** `[A-Za-z\d]`. */
  predicate IsAlnum(c: char)
  {
    IsLetter(c) || Numbers.IsDigit(c)
  }

  /** The characters `.` does not match in a regular expression without the `s` flag. */
  predicate IsLineTerminator(c: char)
  {
    c == '\n' || c == '\r' || c == '\U{2028}' || c == '\U{2029}'
  }

  /** `.*`: no line terminator in `t`. */
  predicate AnyLine(t: string)
  {
    forall j :: 0 <= j < |t| ==> !IsLineTerminator(t[j])
  }

  /**
   * What `/^(?=.*[A-Za-z])(?=.*\d)[A-Za-z\d]{8,}$/` accepts, read off the pattern: each lookahead
   * finds its character after a stretch of non-line-terminators, and the body is eight or more
   * letters and digits.
   */
  ghost predicate PasswordPattern(s: string)
  {
    && (exists i :: 0 <= i < |s| && AnyLine(s[..i]) && IsLetter(s[i]))
    && (exists i :: 0 <= i < |s| && AnyLine(s[..i]) && Numbers.IsDigit(s[i]))
    && |s| >= 8 && (forall j :: 0 <= j < |s| ==> IsAlnum(s[j]))
  }

  /** Some character of `s` is a letter. */
  predicate HasLetter(s: string)
  {
    s != [] && (IsLetter(s[0]) || HasLetter(s[1..]))
  }

  /** Some character of `s` is a digit. */
  predicate HasDigit(s: string)
  {
    s != [] && (Numbers.IsDigit(s[0]) || HasDigit(s[1..]))
  }

  /** `validatePassword`: at least eight characters, all letters or digits, with a letter and a digit. */
  predicate ValidatePassword(s: string)
  {
    |s| >= 8 && (forall j :: 0 <= j < |s| ==> IsAlnum(s[j])) && HasLetter(s) && HasDigit(s)
  }

  lemma {:induction false} HasLetterAt(s: string)
    ensures HasLetter(s) <==> exists i :: 0 <= i < |s| && IsLetter(s[i])
  {
    if s != [] {
      HasLetterAt(s[1..]);
      if HasLetter(s[1..]) {
        var i :| 0 <= i < |s[1..]| && IsLetter(s[1..][i]);
        assert IsLetter(s[i + 1]);
      }
      forall i | 0 < i < |s| && IsLetter(s[i]) ensures HasLetter(s[1..]) {
        assert s[1..][i - 1] == s[i];
      }
    }
  }

  lemma {:induction false} HasDigitAt(s: string)
    ensures HasDigit(s) <==> exists i :: 0 <= i < |s| && Numbers.IsDigit(s[i])
  {
    if s != [] {
      HasDigitAt(s[1..]);
      if HasDigit(s[1..]) {
        var i :| 0 <= i < |s[1..]| && Numbers.IsDigit(s[1..][i]);
        assert Numbers.IsDigit(s[i + 1]);
      }
      forall i | 0 < i < |s| && Numbers.IsDigit(s[i]) ensures HasDigit(s[1..]) {
        assert s[1..][i - 1] == s[i];
      }
    }
  }

  /** `validatePassword` accepts exactly what its regular expression describes. */
  lemma ValidatePasswordMatchesPattern(s: string)
    ensures ValidatePassword(s) <==> PasswordPattern(s)
  {
    HasLetterAt(s);
    HasDigitAt(s);
    if |s| >= 8 && forall j :: 0 <= j < |s| ==> IsAlnum(s[j]) {
      forall i | 0 <= i < |s| ensures AnyLine(s[..i]) {
        assert forall j :: 0 <= j < i ==> s[..i][j] == s[j];
      }
    }
  }

  // ---- The sign-up checks ----

  /** The inputs of the sign-up form. */
  datatype Form = Form(
    username: string,
    firstName: string,
    lastName: string,
    email: string,
    contact: string,
    password: string,
    confirm: string,
    botChecked: bool)

  /** The problems the page reports, in the order it checks them. */
  datatype Problem =
    | UsernameRequired
    | FirstNameRequired
    | LastNameRequired
    | InvalidEmail
    | InvalidContact
    | WeakPassword
    | PasswordMismatch
    | NotVerified

  /** The message shown for each problem. */
  function Message(p: Problem): string
  {
    match p
    case UsernameRequired => "Username is required."
    case FirstNameRequired => "First Name is required."
    case LastNameRequired => "Last Name is required."
    case InvalidEmail => "Please enter a valid email address."
    case InvalidContact => "Please enter a valid contact number (10-15 digits)."
    case WeakPassword => "Password must be at least 8 characters, include a letter and a number."
    case PasswordMismatch => "Passwords do not match."
    case NotVerified => "Please verify you are not a bot."
  }

  /** The place of each check in the chain. */
  function Position(p: Problem): nat
  {
    match p
    case UsernameRequired => 0
    case FirstNameRequired => 1
    case LastNameRequired => 2
    case InvalidEmail => 3
    case InvalidContact => 4
    case WeakPassword => 5
    case PasswordMismatch => 6
    case NotVerified => 7
  }

  /** The condition under which the form has the problem. */
  predicate Has(f: Form, p: Problem)
  {
    match p
    case UsernameRequired => Text.IsBlank(f.username)
    case FirstNameRequired => Text.IsBlank(f.firstName)
    case LastNameRequired => Text.IsBlank(f.lastName)
    case InvalidEmail => !ValidateEmail(f.email)
    case InvalidContact => !ValidatePhone(f.contact)
    case WeakPassword => !ValidatePassword(f.password)
    case PasswordMismatch => f.password != f.confirm
    case NotVerified => !f.botChecked
  }

  /**
   * The early-return guards of `handleSignup`: the first problem found, or `None` when the form
   * passes every check.
   */
  function FirstProblem(f: Form): (r: Option<Problem>)
    ensures r.Some? ==> Has(f, r.value)
    ensures r == None ==> forall p :: !Has(f, p)
  {
    if Text.IsBlank(f.username) then Some(UsernameRequired)
    else if Text.IsBlank(f.firstName) then Some(FirstNameRequired)
    else if Text.IsBlank(f.lastName) then Some(LastNameRequired)
    else if !ValidateEmail(f.email) then Some(InvalidEmail)
    else if !ValidatePhone(f.contact) then Some(InvalidContact)
    else if !ValidatePassword(f.password) then Some(WeakPassword)
    else if f.password != f.confirm then Some(PasswordMismatch)
    else if !f.botChecked then Some(NotVerified)
    else None
  }

  /** The body of the sign-up request; the confirmation and the bot check are not sent. */
  datatype Payload = Payload(
    username: string,
    firstName: string,
    lastName: string,
    email: string,
    contact: string,
    password: string)

  /** What a press of the sign-up button does before any response: show a message, or send the request. */
  datatype Attempt = Rejected(error: string) | Send(payload: Payload)

  /** The page's `error` and `success` messages. */
  datatype Status = Status(error: string, success: string)

  /** `handleSignup` up to the request: both messages are cleared, then the first problem is shown or the form is sent. */
  function HandleSignup(f: Form): (r: (Status, Attempt))
    ensures r.0.success == ""
    ensures r.1.Rejected? <==> FirstProblem(f).Some?
    ensures r.1.Rejected? ==> r.0.error == r.1.error == Message(FirstProblem(f).value)
    ensures r.1.Send? ==> r.0.error == ""
  {
    match FirstProblem(f)
    case Some(p) => (Status(Message(p), ""), Rejected(Message(p)))
    case None =>
      (Status("", ""), Send(Payload(f.username, f.firstName, f.lastName, f.email, f.contact, f.password)))
  }

  /** The outcome of the request: a token, a thrown `Error` with its message, or some other thrown value. */
  datatype Response = Token(token: string) | ThrewError(message: string) | ThrewOther

  /** The messages after the response, and the token the page stores. */
  function AfterResponse(resp: Response): (r: (Status, Option<string>))
    ensures r.1.Some? <==> resp.Token?
    ensures resp.Token? ==> r == (Status("", "Signup successful! Redirecting to login..."), Some(resp.token))
    ensures resp.ThrewError? ==> r.0 == Status(resp.message, "")
    ensures resp.ThrewOther? ==> r.0 == Status("Signup failed", "")
  {
    match resp
    case Token(t) => (Status("", "Signup successful! Redirecting to login..."), Some(t))
    case ThrewError(m) => (Status(m, ""), None)
    case ThrewOther => (Status("Signup failed", ""), None)
  }

  // ---- Properties ----

  /** The reported problem is the first one in the chain's order: every earlier check passed. */
  lemma FirstProblemIsFirst(f: Form, p: Problem)
    requires FirstProblem(f).Some? && Position(p) < Position(FirstProblem(f).value)
    ensures !Has(f, p)
  {
    if Has(f, p) {
      FirstProblemNoLater(f, p);
    }
  }

  /** A form with a problem reports that problem or one the chain checks before it. */
  lemma FirstProblemNoLater(f: Form, p: Problem)
    requires Has(f, p)
    ensures FirstProblem(f).Some? && Position(FirstProblem(f).value) <= Position(p)
  {
    match p
    case UsernameRequired =>
    case FirstNameRequired =>
    case LastNameRequired =>
    case InvalidEmail =>
    case InvalidContact =>
    case WeakPassword =>
    case PasswordMismatch =>
    case NotVerified =>
  }

  /** The form is sent exactly when it has no problem at all. */
  lemma NoProblemIffValid(f: Form)
    ensures FirstProblem(f) == None <==> forall p :: !Has(f, p)
  {
    if FirstProblem(f).Some? {
      assert Has(f, FirstProblem(f).value);
    }
  }

  /**
   * A request is sent only for a form whose names are not blank, whose email, contact and
   * password match their patterns, whose confirmation equals the password and whose bot box is
   * checked, and it carries the fields as typed.
   */
  lemma SentFormIsValid(f: Form)
    requires HandleSignup(f).1.Send?
    ensures !Text.IsBlank(f.username) && !Text.IsBlank(f.firstName) && !Text.IsBlank(f.lastName)
    ensures EmailPattern(f.email) && ValidatePhone(f.contact) && PasswordPattern(f.password)
    ensures f.confirm == f.password && f.botChecked
    ensures HandleSignup(f).1.payload
      == Payload(f.username, f.firstName, f.lastName, f.email, f.contact, f.password)
  {
    assert !Has(f, UsernameRequired) && !Has(f, FirstNameRequired) && !Has(f, LastNameRequired);
    assert !Has(f, InvalidEmail) && !Has(f, InvalidContact) && !Has(f, WeakPassword);
    assert !Has(f, PasswordMismatch) && !Has(f, NotVerified);
    ValidateEmailMatchesPattern(f.email);
    ValidatePasswordMatchesPattern(f.password);
  }

  /** With a valid form, a mismatched confirmation is what the page reports. */
  lemma MismatchReported(f: Form)
    requires !Text.IsBlank(f.username) && !Text.IsBlank(f.firstName) && !Text.IsBlank(f.lastName)
    requires EmailPattern(f.email) && ValidatePhone(f.contact) && PasswordPattern(f.password)
    requires f.confirm != f.password
    ensures HandleSignup(f).1 == Rejected("Passwords do not match.")
  {
    ValidateEmailMatchesPattern(f.email);
    ValidatePasswordMatchesPattern(f.password);
  }

  /** A match of the regular expression with its `@` at `i` has no other `@`. */
  lemma MatchHasOneAt(s: string, i: int, k: int)
    requires 0 < i && i + 1 < k && k + 1 < |s|
    requires AllPlain(s[..i]) && s[i] == '@' && AllPlain(s[i + 1..k]) && s[k] == '.' && AllPlain(s[k + 1..])
    ensures forall j :: 0 <= j < |s| && s[j] == '@' ==> j == i
  {
    forall j | 0 <= j < |s| && j != i ensures s[j] != '@' {
      if j < i {
        assert s[..i][j] == s[j];
      } else if j < k {
        assert s[i + 1..k][j - i - 1] == s[j];
      } else if j > k {
        assert s[k + 1..][j - k - 1] == s[j];
      }
    }
  }

  /** The regular expression for email addresses rejects any string with two `@` signs. */
  lemma {:induction false} EmailHasOneAt(s: string, a: int, b: int)
    requires 0 <= a < b < |s| && s[a] == '@' && s[b] == '@'
    ensures !EmailPattern(s)
  {
    if EmailPattern(s) {
      var i, k :| 0 < i && i + 1 < k && k + 1 < |s|
        && AllPlain(s[..i]) && s[i] == '@' && AllPlain(s[i + 1..k]) && s[k] == '.' && AllPlain(s[k + 1..]);
      MatchHasOneAt(s, i, k);
      assert false;
    }
  }
}
