/** The client-side zod schemas: booking name and phone, the verification
    code, and the length rules of the admin login. Each schema is modelled as
    the list of issues it reports, so "accepted" means "no issue". */
module Validations {
  import opened Text

  /** A name character: a letter, `\s`, `-` or `'` (the class `[\p{L}\s\-']`). */
  predicate NameChar(c: char) {
    IsLetter(c) || IsSpace(c) || c == '-' || c == '\''
  }

  /** `/^[\p{L}\s\-']+$/u` */
  predicate NamePattern(s: string) {
    |s| >= 1 && forall i :: 0 <= i < |s| ==> NameChar(s[i])
  }

  /** `/^05\d{8}$/` */
  predicate LocalMobile(s: string) {
    |s| == 10 && s[0] == '0' && s[1] == '5' && forall i :: 2 <= i < 10 ==> IsDigit(s[i])
  }

  const NameMin: nat := 2
  const NameMax: nat := 100

  datatype Issue = TooShort | TooLong | BadPattern | WrongLength

  /** zod keeps checking after a failed check (none of these is fatal), so
      every failing rule is reported, in declaration order. */
  function Check(fails: bool, issue: Issue): seq<Issue> {
    if fails then [issue] else []
  }

  /** `bookingSchema.name`: trim, then min 2, max 100, the name pattern. */
  function NameIssues(s: string): (r: seq<Issue>)
    ensures r == [] <==> NameMin <= |Trim(s)| <= NameMax && NamePattern(Trim(s))
  {
    var t := Trim(s);
    Check(|t| < NameMin, TooShort) + Check(|t| > NameMax, TooLong) + Check(!NamePattern(t), BadPattern)
  }

  /** `bookingSchema.phone`: trim, then `^05\d{8}$`. */
  function PhoneIssues(s: string): (r: seq<Issue>)
    ensures r == [] <==> LocalMobile(Trim(s))
    ensures r == [] ==> |Trim(s)| == 10
  {
    Check(!LocalMobile(Trim(s)), BadPattern)
  }

  /** `verificationCodeSchema.code`: length 6, then `^\d{6}$`, no trimming. */
  function CodeIssues(s: string): (r: seq<Issue>)
    ensures r == [] <==> IsSixDigits(s)
    ensures |s| != 6 ==> r == [WrongLength, BadPattern]
  {
    Check(|s| != 6, WrongLength) + Check(!IsSixDigits(s), BadPattern)
  }

  /** The rules of `adminLoginSchema`: the trimmed email has the email format
      (the oracle `isEmail`) and at most 255 characters; the password, not
      trimmed, has 6 to 128. */
  function LoginIssues(email: string, password: string, isEmail: string -> bool): (r: seq<Issue>)
    ensures r == [] <==> isEmail(Trim(email)) && |Trim(email)| <= 255 && 6 <= |password| <= 128
  {
    Check(!isEmail(Trim(email)), BadPattern) + Check(|Trim(email)| > 255, TooLong) +
    Check(|password| < 6, TooShort) + Check(|password| > 128, TooLong)
  }

  /** Surrounding whitespace never changes the name or phone verdict. */
  lemma TrimInvariant(s: string)
    ensures NameIssues(Trim(s)) == NameIssues(s)
    ensures PhoneIssues(Trim(s)) == PhoneIssues(s)
  {
    TrimIdempotent(s);
    SameTrimSameVerdict(Trim(s), s);
  }

  /** The name and phone verdicts depend only on the trimmed string. */
  lemma SameTrimSameVerdict(a: string, b: string)
    requires Trim(a) == Trim(b)
    ensures NameIssues(a) == NameIssues(b)
    ensures PhoneIssues(a) == PhoneIssues(b)
  {
  }

  /** The password is not trimmed: with an acceptable e-mail address, a
      password of five characters and a space is long enough. */
  lemma PasswordNotTrimmed(email: string, isEmail: string -> bool)
    requires isEmail(Trim(email)) && |Trim(email)| <= 255
    ensures LoginIssues(email, "abcde ", isEmail) == []
  {
    assert |"abcde "| == 6;
  }


}
