/**
 * POST /api/contact: the validation chain over the three form fields, the
 * email pattern, and the insert followed by a best-effort notification.
 */
module ContactRoute {
  import opened Wrappers
  import opened Submissions

  const MaxNameLength := 255
  const MaxEmailLength := 255
  const MaxMessageLength := 5000

  // ---------------------------------------------------------------------
  // The email pattern ^[^\s@]+@[^\s@]+\.[^\s@]+$
  // ---------------------------------------------------------------------

  /** The characters matched by \s in an ECMAScript regular expression. */
  predicate IsRegexSpace(c: char) {
    || c == '\t' || c == '\n' || c == '\U{000B}' || c == '\U{000C}' || c == '\r' || c == ' '
    || c == '\U{00A0}' || c == '\U{1680}' || ('\U{2000}' <= c <= '\U{200A}')
    || c == '\U{2028}' || c == '\U{2029}' || c == '\U{202F}' || c == '\U{205F}'
    || c == '\U{3000}' || c == '\U{FEFF}'
  }

  /** The class [^\s@]. */
  predicate IsAddressChar(c: char) {
    c != '@' && !IsRegexSpace(c)
  }

  predicate AllAddressChars(t: string) {
    forall k | 0 <= k < |t| :: IsAddressChar(t[k])
  }

  /**
   * The pattern read literally: a non-empty run of [^\s@] ending before an
   * '@' at i, a non-empty run up to a '.' at j, and a non-empty run to the end.
   */
  ghost predicate MatchesEmailPattern(s: string) {
    exists i: nat, j: nat :: PatternAt(s, i, j)
  }

  /** The pattern matches with its '@' at i and its '.' at j. */
  ghost predicate PatternAt(s: string, i: nat, j: nat) {
    && 0 < i && i + 1 < j && j + 1 < |s|
    && s[i] == '@' && s[j] == '.'
    && AllAddressChars(s[..i]) && AllAddressChars(s[i + 1..j]) && AllAddressChars(s[j + 1..])
  }

  /** Position of the first c in s, or |s| when there is none. */
  function FirstIndexOf(s: string, c: char): (k: nat)
    ensures k <= |s|
    ensures k < |s| ==> s[k] == c
    ensures forall m :: 0 <= m < k ==> s[m] != c
  {
    if s == [] then 0
    else if s[0] == c then 0
    else 1 + FirstIndexOf(s[1..], c)
  }

  /** Some '.' in d has at least one character on either side. */
  predicate HasInnerDot(d: string) {
    exists k | 0 < k < |d| - 1 :: d[k] == '.'
  }

  /**
   * emailRegex.test(email), decided by splitting at the first '@': the part
   * before it must be non-empty and the part after it an [^\s@] run with an
   * inner '.'.
   */
  predicate IsValidEmail(s: string)
    ensures IsValidEmail(s) ==> '@' in s && |s| >= 5
  {
    var at := FirstIndexOf(s, '@');
    && 0 < at < |s|
    && AllAddressChars(s[..at])
    && AllAddressChars(s[at + 1..])
    && HasInnerDot(s[at + 1..])
  }

  /** A slice of an [^\s@] run is an [^\s@] run. */
  lemma AllAddressCharsSlice(t: string, a: nat, b: nat)
    requires AllAddressChars(t)
    requires a <= b <= |t|
    ensures AllAddressChars(t[a..b])
  {
    forall m | 0 <= m < b - a ensures IsAddressChar(t[a..b][m]) {
      assert t[a..b][m] == t[a + m];
    }
  }

  /** Two [^\s@] runs around a '.' make one run. */
  lemma AllAddressCharsJoin(t: string, j: nat)
    requires j < |t| && t[j] == '.'
    requires AllAddressChars(t[..j]) && AllAddressChars(t[j + 1..])
    ensures AllAddressChars(t)
  {
    forall m | 0 <= m < |t| ensures IsAddressChar(t[m]) {
      if m < j {
        assert t[m] == t[..j][m];
      } else if m > j {
        assert t[m] == t[j + 1..][m - j - 1];
      }
    }
  }

  /** Every accepted string matches the pattern. */
  lemma ValidEmailMatchesPattern(s: string)
    requires IsValidEmail(s)
    ensures MatchesEmailPattern(s)
  {
    var at := FirstIndexOf(s, '@');
    var d := s[at + 1..];
    var k :| 0 < k < |d| - 1 && d[k] == '.';
    var j := at + 1 + k;
    assert s[j] == '.';
    assert s[at + 1..j] == d[..k];
    assert s[j + 1..] == d[k + 1..];
    AllAddressCharsSlice(d, 0, k);
    AllAddressCharsSlice(d, k + 1, |d|);
    assert d[k + 1..|d|] == d[k + 1..];
    assert PatternAt(s, at, j);
  }

  /** When c first occurs at i, FirstIndexOf finds i. */
  lemma FirstIndexAt(s: string, c: char, i: nat)
    requires i < |s| && s[i] == c
    requires forall m :: 0 <= m < i ==> s[m] != c
    ensures FirstIndexOf(s, c) == i
  {
  }

  /** An [^\s@] run contains no '@'. */
  lemma NoAtInAddressRun(t: string)
    requires AllAddressChars(t)
    ensures forall m :: 0 <= m < |t| ==> t[m] != '@'
  {
  }

  /** A match with its '@' at i and its '.' at j is accepted. */
  lemma PatternAtIsValidEmail(s: string, i: nat, j: nat)
    requires PatternAt(s, i, j)
    ensures IsValidEmail(s)
  {
    NoAtInAddressRun(s[..i]);
    forall m | 0 <= m < i ensures s[m] != '@' {
      assert s[..i][m] == s[m];
    }
    FirstIndexAt(s, '@', i);
    var d := s[i + 1..];
    var k := j - i - 1;
    assert d[..k] == s[i + 1..j];
    assert d[k + 1..] == s[j + 1..];
    AllAddressCharsJoin(d, k);
    assert 0 < k < |d| - 1 && d[k] == '.';
  }

  /** Every string matching the pattern is accepted. */
  lemma PatternMatchIsValidEmail(s: string)
    requires MatchesEmailPattern(s)
    ensures IsValidEmail(s)
  {
    var i: nat, j: nat :| PatternAt(s, i, j);
    PatternAtIsValidEmail(s, i, j);
  }

  /** The decision procedure accepts exactly the strings the pattern matches. */
  lemma IsValidEmailMatchesPattern(s: string)
    ensures IsValidEmail(s) <==> MatchesEmailPattern(s)
  {
    if IsValidEmail(s) {
      ValidEmailMatchesPattern(s);
    }
    if MatchesEmailPattern(s) {
      PatternMatchIsValidEmail(s);
    }
  }

  /** A string with no '@' is never accepted. */
  lemma NoAtSignIsInvalid(s: string)
    requires '@' !in s
    ensures !IsValidEmail(s)
  {
    assert FirstIndexOf(s, '@') == |s|;
  }

  /** An accepted email has exactly one '@' and no whitespace. */
  lemma ValidEmailShape(s: string)
    requires IsValidEmail(s)
    ensures multiset(s)['@'] == 1
    ensures forall k :: 0 <= k < |s| ==> !IsRegexSpace(s[k])
  {
    var at := FirstIndexOf(s, '@');
    var before, after := s[..at], s[at + 1..];
    assert s == before + [s[at]] + after;
    assert '@' !in before by {
      forall m | 0 <= m < |before| ensures before[m] != '@' {
        assert before[m] == s[m];
      }
    }
    assert '@' !in after by {
      forall m | 0 <= m < |after| ensures after[m] != '@' {
        assert IsAddressChar(after[m]);
      }
    }
    assert multiset(before)['@'] == 0 && multiset(after)['@'] == 0;
    forall k | 0 <= k < |s| ensures !IsRegexSpace(s[k]) {
      if k < at {
        assert s[k] == before[k];
      } else if k > at {
        assert s[k] == after[k - at - 1];
      }
    }
  }

  // ---------------------------------------------------------------------
  // The validation chain
  // ---------------------------------------------------------------------

  /** The checks, in the order the handler runs them. */
  datatype ValidationError = FieldsRequired | InvalidEmail | NameTooLong | EmailTooLong | MessageTooLong

  /** Position of a check in the chain. */
  function Rank(e: ValidationError): nat {
    match e
    case FieldsRequired => 0
    case InvalidEmail => 1
    case NameTooLong => 2
    case EmailTooLong => 3
    case MessageTooLong => 4
  }

  /** Whether the check that reports e passes on these fields. */
  predicate Passes(e: ValidationError, name: string, email: string, message: string) {
    match e
    case FieldsRequired => name != [] && email != [] && message != []
    case InvalidEmail => IsValidEmail(email)
    case NameTooLong => |name| <= MaxNameLength
    case EmailTooLong => |email| <= MaxEmailLength
    case MessageTooLong => |message| <= MaxMessageLength
  }

  /** The error text of the 400 response. */
  function ErrorText(e: ValidationError): (t: string)
    ensures |t| > 0
  {
    match e
    case FieldsRequired => "All fields are required"
    case InvalidEmail => "Please provide a valid email address"
    case NameTooLong => "Name must be less than 255 characters"
    case EmailTooLong => "Email must be less than 255 characters"
    case MessageTooLong => "Message must be less than 5000 characters"
  }

  /** Each check reports its own text, so the client can tell the failures apart. */
  lemma ErrorTextsDistinct(e1: ValidationError, e2: ValidationError)
    requires e1 != e2
    ensures ErrorText(e1) != ErrorText(e2)
  {
  }

  /**
   * The early-return guards of the handler. The result is the failing check
   * that comes first in the chain, and None exactly when every check passes.
   */
  function Validate(name: string, email: string, message: string): (r: Option<ValidationError>)
    ensures r.None? <==> forall e :: Passes(e, name, email, message)
    ensures r.Some? ==> !Passes(r.value, name, email, message)
    ensures r.Some? ==> forall e :: Rank(e) < Rank(r.value) ==> Passes(e, name, email, message)
  {
    if name == [] || email == [] || message == [] then
      assert !Passes(FieldsRequired, name, email, message);
      Some(FieldsRequired)
    else if !IsValidEmail(email) then
      assert !Passes(InvalidEmail, name, email, message);
      Some(InvalidEmail)
    else if |name| > MaxNameLength then
      assert !Passes(NameTooLong, name, email, message);
      Some(NameTooLong)
    else if |email| > MaxEmailLength then
      assert !Passes(EmailTooLong, name, email, message);
      Some(EmailTooLong)
    else if |message| > MaxMessageLength then
      assert !Passes(MessageTooLong, name, email, message);
      Some(MessageTooLong)
    else
      None
  }

  /** An empty field is always reported as missing, whatever the other fields hold. */
  lemma MissingFieldWins(name: string, email: string, message: string)
    requires name == [] || email == [] || message == []
    ensures Validate(name, email, message) == Some(FieldsRequired)
  {
    assert !Passes(FieldsRequired, name, email, message);
  }

  function Repeat(c: char, n: nat): (r: string)
    ensures |r| == n
    ensures forall k :: 0 <= k < n ==> r[k] == c
  {
    if n == 0 then [] else [c] + Repeat(c, n - 1)
  }

  /** "a@b.c" followed by n - 5 more 'c's: a valid address of length n. */
  lemma LongAddressIsValid(n: nat)
    requires n >= 5
    ensures IsValidEmail("a@b.c" + Repeat('c', n - 5))
    ensures |"a@b.c" + Repeat('c', n - 5)| == n
  {
    var s := "a@b.c" + Repeat('c', n - 5);
    assert s[1] == '@' && s[3] == '.';
    assert AllAddressChars(s[..1]) by { assert s[..1] == "a"; }
    assert AllAddressChars(s[2..3]) by { assert s[2..3] == "b"; }
    assert AllAddressChars(s[4..]) by {
      forall m | 0 <= m < |s[4..]| ensures IsAddressChar(s[4..][m]) {
        assert s[4..][m] == s[4 + m];
      }
    }
    PatternAtIsValidEmail(s, 1, 3);
  }

  const SampleEmail := "a@b.c"

  /** The name limit is inclusive: 255 characters pass, 256 fail. */
  lemma NameLimitInclusive()
    ensures Validate(Repeat('n', 255), SampleEmail, "hi") == None
    ensures Validate(Repeat('n', 256), SampleEmail, "hi") == Some(NameTooLong)
  {
    LongAddressIsValid(5);
    assert SampleEmail + Repeat('c', 0) == SampleEmail;
  }

  /** The email limit is inclusive: 255 characters pass, 256 fail. */
  lemma EmailLimitInclusive()
    ensures Validate("Ann", SampleEmail + Repeat('c', 250), "hi") == None
    ensures Validate("Ann", SampleEmail + Repeat('c', 251), "hi") == Some(EmailTooLong)
  {
    LongAddressIsValid(255);
    LongAddressIsValid(256);
  }

  /** The message limit is inclusive: 5000 characters pass, 5001 fail. */
  lemma MessageLimitInclusive()
    ensures Validate("Ann", SampleEmail, Repeat('m', 5000)) == None
    ensures Validate("Ann", SampleEmail, Repeat('m', 5001)) == Some(MessageTooLong)
  {
    LongAddressIsValid(5);
    assert SampleEmail + Repeat('c', 0) == SampleEmail;
  }

  /** With every field present, an address without '@' is rejected as invalid. */
  lemma AddressWithoutAtRejected(name: string, email: string, message: string)
    requires name != [] && email != [] && message != []
    requires '@' !in email
    ensures Validate(name, email, message) == Some(InvalidEmail)
  {
    NoAtSignIsInvalid(email);
  }

  /** The scenario "not-an-email": rejected as an invalid address. */
  lemma NotAnEmailRejected()
    ensures Validate("Ann", "not-an-email", "hi") == Some(InvalidEmail)
  {
    var e := "not-an-email";
    assert '@' !in e by {
      forall m | 0 <= m < |e| ensures e[m] != '@' { }
    }
    AddressWithoutAtRejected("Ann", e, "hi");
  }

  // ---------------------------------------------------------------------
  // The handler
  // ---------------------------------------------------------------------

  /** The JSON reply: 200 with the new id, or 400 with a validation error. */
  datatype PostReply = Accepted(id: nat) | Rejected(error: ValidationError)

  /** The HTTP status: 200 for an accepted submission, 400 for a validation failure. */
  function Status(reply: PostReply): (code: int)
    ensures code == 200 <==> reply.Accepted?
    ensures code == 400 <==> reply.Rejected?
  {
    if reply.Accepted? then 200 else 400
  }

  const SuccessText := "Thank you for your message! We will get back to you soon."

  /**
   * The text of the reply: the thank-you message of a 200 reply (sent
   * beside success: true and the id), or the error of a 400 reply.
   */
  function ReplyText(reply: PostReply): (t: string)
    ensures reply.Accepted? ==> t == SuccessText
    ensures reply.Rejected? ==> t == ErrorText(reply.error) && t != SuccessText
  {
    match reply
    case Accepted(_) => SuccessText
    case Rejected(e) =>
      assert ErrorText(e) != SuccessText by {
        assert ErrorText(e)[0] != SuccessText[0] || |ErrorText(e)| != |SuccessText|;
      }
      ErrorText(e)
  }

  /** The summary handed to the notifier. */
  datatype Notice = Notice(subject: string, name: string, email: string, id: nat, createdAt: int, message: string)

  /** What became of the notification: it is advisory and never reaches the reply. */
  datatype NotifyOutcome = NotAttempted | Delivered | FailureLogged

  /**
   * The POST handler. A failing check returns its error before the INSERT;
   * otherwise exactly one row with the given fields is added and its id
   * returned. The notifier's outcome, given as notifierFails, only decides
   * what is logged: the reply and the table do not depend on it.
   */
  method Post(table: Table, name: string, email: string, message: string, elapsed: nat, notifierFails: bool)
    returns (reply: PostReply, notice: Option<Notice>, notified: NotifyOutcome)
    requires table.Valid()
    modifies table
    ensures table.Valid()
    ensures Validate(name, email, message).Some? ==>
      && reply == Rejected(Validate(name, email, message).value)
      && table.rows == old(table.rows) && table.nextId == old(table.nextId) && table.clock == old(table.clock)
      && notice == None && notified == NotAttempted
    ensures Validate(name, email, message).None? ==>
      && reply == Accepted(old(table.nextId))
      && table.rows == old(table.rows) + [Submission(old(table.nextId), name, email, message, old(table.clock) + elapsed)]
      && table.nextId == old(table.nextId) + 1 && table.clock == old(table.clock) + elapsed
      && notice == Some(Notice("New Contact Form Submission from " + name, name, email,
                               old(table.nextId), old(table.clock) + elapsed, message))
      && notified == (if notifierFails then FailureLogged else Delivered)
  {
    var invalid := Validate(name, email, message);
    if invalid.Some? {
      return Rejected(invalid.value), None, NotAttempted;
    }
    var row := table.Insert(name, email, message, elapsed);
    notice := Some(Notice("New Contact Form Submission from " + name, name, email, row.id, row.createdAt, message));
    notified := if notifierFails then FailureLogged else Delivered;
    reply := Accepted(row.id);
  }
}
