/**
 * The express-validator chains applied to request bodies before a controller
 * runs: `eventValidation`, `registerValidation` and `loginValidation`. Each
 * chain is a predicate per field; the controller answers with the message of
 * the first error, and errors are recorded in chain order.
 */
module Validators {
  import opened Wrappers
  import opened Times
  import opened Dates
  import opened Text

  // ---------------------------------------------------------------------------
  // Whitespace trimming (the `trim()` sanitizer, which strips JavaScript `\s`)

  predicate IsSpace(c: char)
  {
    || c == '\t' || c == '\n' || c == '\U{B}' || c == '\U{C}' || c == '\r' || c == ' '
    || c == '\U{A0}' || c == '\U{1680}' || ('\U{2000}' <= c <= '\U{200A}')
    || c == '\U{2028}' || c == '\U{2029}' || c == '\U{202F}' || c == '\U{205F}'
    || c == '\U{3000}' || c == '\U{FEFF}'
  }

  /** Drops leading whitespace: the result is a suffix and everything dropped is whitespace. */
  function TrimStart(s: string): (r: string)
    ensures |r| <= |s| && r == s[|s| - |r|..]
    ensures forall k :: 0 <= k < |s| - |r| ==> IsSpace(s[k])
    ensures r == [] || !IsSpace(r[0])
    decreases |s|
  {
    if |s| > 0 && IsSpace(s[0]) then TrimStart(s[1..]) else s
  }

  /** Drops trailing whitespace: the result is a prefix and everything dropped is whitespace. */
  function TrimEnd(s: string): (r: string)
    ensures |r| <= |s| && r == s[..|r|]
    ensures forall k :: |r| <= k < |s| ==> IsSpace(s[k])
    ensures r == [] || !IsSpace(r[|r| - 1])
    decreases |s|
  {
    if |s| > 0 && IsSpace(s[|s| - 1]) then TrimEnd(s[..|s| - 1]) else s
  }

  /** The `trim()` sanitizer: a stretch of the input with no whitespace at either end. */
  function Trim(s: string): (r: string)
    ensures |r| <= |s|
    ensures r == [] || (!IsSpace(r[0]) && !IsSpace(r[|r| - 1]))
  {
    var t := TrimStart(s);
    var r := TrimEnd(t);
    assert r != [] ==> r[0] == t[0];
    r
  }

  /** The sanitizer is idempotent: a trimmed value is left as it is. */
  lemma TrimIdempotent(s: string)
    ensures Trim(Trim(s)) == Trim(s)
  {
    var t := Trim(s);
    if t != [] {
      assert t[0] == TrimStart(s)[0];
      assert TrimStart(t) == t;
    }
  }

  // ---------------------------------------------------------------------------
  // Event fields

  const TitleMessage := "Title must be between 3 and 100 characters"
  const DescriptionMessage := "Description must not exceed 500 characters"
  const DateFormatMessage := "Invalid date format"
  const PastDateMessage := "Date cannot be in the past"
  const StartTimeMessage := "Invalid start time format (HH:mm)"
  const EndTimeMessage := "Invalid end time format (HH:mm)"

  /** A title is accepted when, after trimming, `isLength` counts 3 to 100 characters. */
  predicate TitleValid(title: string)
  {
    3 <= ValidatorLength(Trim(title)) <= 100
  }

  /** `optional()`: an absent description is not checked; a present one counts at most 500. */
  predicate DescriptionValid(description: Option<string>)
  {
    description.Some? ==> ValidatorLength(description.value) <= 500
  }

  /**
   * The `date` field of a request. `iso8601` is the library's opaque ISO 8601
   * check on the raw string; `instant` is what `new Date(value)` yields on the
   * local clock.
   */
  datatype RawDate = RawDate(iso8601: bool, instant: int)

  /** The body of a create or update request. */
  datatype EventRequest = EventRequest(
    title: string,
    description: Option<string>,
    date: RawDate,
    startTime: string,
    endTime: string)

  /** Every rule of the event chain holds, `now` being the clock reading. */
  predicate EventRequestValid(req: EventRequest, now: int)
  {
    && TitleValid(req.title)
    && DescriptionValid(req.description)
    && req.date.iso8601
    && !IsPast(req.date.instant, now)
    && IsTime(req.startTime)
    && IsTime(req.endTime)
  }

  /**
   * The first error of `eventValidation` (title, description, date, start
   * time, end time, in that order), or None when the request passes.
   */
  function EventValidation(req: EventRequest, now: int): (r: Option<string>)
    ensures r.None? <==> EventRequestValid(req, now)
    ensures !TitleValid(req.title) ==> r == Some(TitleMessage)
    ensures TitleValid(req.title) && !DescriptionValid(req.description) ==> r == Some(DescriptionMessage)
  {
    if !TitleValid(req.title) then Some(TitleMessage)
    else if !DescriptionValid(req.description) then Some(DescriptionMessage)
    else if !req.date.iso8601 then Some(DateFormatMessage)
    else if IsPast(req.date.instant, now) then Some(PastDateMessage)
    else if !IsTime(req.startTime) then Some(StartTimeMessage)
    else if !IsTime(req.endTime) then Some(EndTimeMessage)
    else None
  }

  /** Today's date is accepted, whatever the time of day on either side; an earlier day is refused. */
  lemma TodayIsNotPast(req: EventRequest, now: int)
    requires req.date.iso8601
    requires TitleValid(req.title) && DescriptionValid(req.description)
    requires IsTime(req.startTime) && IsTime(req.endTime)
    ensures Day(req.date.instant) == Day(now) ==> EventValidation(req, now).None?
    ensures Day(req.date.instant) < Day(now) ==> EventValidation(req, now) == Some(PastDateMessage)
  {
    PastIffEarlierDay(req.date.instant, now);
  }

  // ---------------------------------------------------------------------------
  // Registration and login

  const NameMessage := "Name must be at least 2 characters"
  const EmailMessage := "Please provide a valid email"
  const PasswordLengthMessage := "Password must be at least 6 characters"
  const PasswordPatternMessage := "Password must contain at least one letter and one number"
  const PasswordRequiredMessage := "Password is required"

  predicate IsAsciiLetter(c: char) { ('A' <= c <= 'Z') || ('a' <= c <= 'z') }

  /** The characters JavaScript's `.` does not match. */
  predicate IsLineTerminator(c: char)
  {
    c == '\n' || c == '\r' || c == '\U{2028}' || c == '\U{2029}'
  }

  /** The text before the first line terminator. */
  function FirstLine(s: string): (r: string)
    ensures |r| <= |s| && r == s[..|r|]
    ensures forall k :: 0 <= k < |r| ==> !IsLineTerminator(s[k])
    ensures |r| == |s| || IsLineTerminator(s[|r|])
    decreases |s|
  {
    if |s| == 0 || IsLineTerminator(s[0]) then []
    else
      var rest := FirstLine(s[1..]);
      assert s[..|rest| + 1] == [s[0]] + s[1..][..|rest|];
      [s[0]] + rest
  }

  predicate HasAsciiLetter(s: string) { exists k :: 0 <= k < |s| && IsAsciiLetter(s[k]) }

  predicate HasDigit(s: string) { exists k :: 0 <= k < |s| && IsDigit(s[k]) }

  /**
   * `^(?=.*[A-Za-z])(?=.*\d)`: both look-aheads start at the beginning and `.*`
   * stops at a line terminator, so the letter and the digit must both occur
   * in the first line.
   */
  predicate PasswordPattern(password: string)
  {
    HasAsciiLetter(FirstLine(password)) && HasDigit(FirstLine(password))
  }

  /** For a single-line password the pattern says exactly "some letter and some digit"; in general it implies it. */
  lemma PasswordPatternMeaning(password: string)
    ensures PasswordPattern(password) ==> HasAsciiLetter(password) && HasDigit(password)
    ensures (forall k :: 0 <= k < |password| ==> !IsLineTerminator(password[k])) ==>
              (PasswordPattern(password) <==> HasAsciiLetter(password) && HasDigit(password))
  {
    var f := FirstLine(password);
    if PasswordPattern(password) {
      var i :| 0 <= i < |f| && IsAsciiLetter(f[i]);
      var j :| 0 <= j < |f| && IsDigit(f[j]);
      assert IsAsciiLetter(password[i]) && IsDigit(password[j]);
    }
    if forall k :: 0 <= k < |password| ==> !IsLineTerminator(password[k]) {
      assert |f| == |password|;
      assert f == password;
    }
  }

  /** The look-aheads stop at the first line break: only the text before it counts. */
  lemma {:induction false} FirstLineStopsAtBreak(line: string, rest: string)
    requires forall k :: 0 <= k < |line| ==> !IsLineTerminator(line[k])
    ensures FirstLine(line + "\n" + rest) == line
  {
    if line != [] {
      assert (line + "\n" + rest)[1..] == line[1..] + "\n" + rest;
      FirstLineStopsAtBreak(line[1..], rest);
    }
  }

  /**
   * Only the first line counts: a password made of a line and whatever follows
   * its line break passes the pattern exactly when that line has a letter and
   * a digit, so a digit that appears only after the break does not help.
   */
  lemma PatternSeesFirstLineOnly(line: string, rest: string)
    requires forall k :: 0 <= k < |line| ==> !IsLineTerminator(line[k])
    ensures PasswordPattern(line + "\n" + rest) <==> HasAsciiLetter(line) && HasDigit(line)
  {
    FirstLineStopsAtBreak(line, rest);
  }

  predicate RegisterPasswordValid(password: string)
  {
    ValidatorLength(password) >= 6 && PasswordPattern(password)
  }

  predicate NameValid(name: string)
  {
    ValidatorLength(Trim(name)) >= 2
  }

  /**
   * The first error of `registerValidation` (name, email, password length,
   * password pattern). `emailValid` is the library's opaque `isEmail` check.
   */
  function RegisterValidation(name: string, emailValid: bool, password: string): (r: Option<string>)
    ensures r.None? <==> NameValid(name) && emailValid && RegisterPasswordValid(password)
    ensures NameValid(name) && emailValid && ValidatorLength(password) < 6 ==> r == Some(PasswordLengthMessage)
  {
    if !NameValid(name) then Some(NameMessage)
    else if !emailValid then Some(EmailMessage)
    else if ValidatorLength(password) < 6 then Some(PasswordLengthMessage)
    else if !PasswordPattern(password) then Some(PasswordPatternMessage)
    else None
  }

  /** The first error of `loginValidation`: a valid email, then a non-empty password. */
  function LoginValidation(emailValid: bool, password: string): (r: Option<string>)
    ensures r.None? <==> emailValid && |password| > 0
  {
    if !emailValid then Some(EmailMessage)
    else if |password| == 0 then Some(PasswordRequiredMessage)
    else None
  }
}
