/**
 * The signup decision of the web front end: the password-strength rule, given
 * both as the regular expression `password_regex` means under Python's `re`
 * and as a direct check over characters, and the order in which `post_signup`
 * applies its checks before it calls `Sign_up`.
 */
module Signup {
  import opened Common

  predicate IsUpper(c: char) { 'A' <= c <= 'Z' }
  predicate IsLower(c: char) { 'a' <= c <= 'z' }
  /** `\d`, restricted to the ASCII digits. */
  predicate IsDigit(c: char) { '0' <= c <= '9' }
  predicate IsSpecial(c: char) { c in "@$!%*?&" }

  /** The character class `[A-Za-z\d@$!%*?&]`. */
  predicate IsAllowed(c: char) {
    IsUpper(c) || IsLower(c) || IsDigit(c) || IsSpecial(c)
  }

  /**
   * A lookahead `(?=.*[X])` tried at the start of `p`: since `.` does not match
   * a line break, some character of the class occurs before the first `\n`.
   */
  ghost predicate LookaheadFinds(p: string, inClass: char -> bool) {
    exists i :: 0 <= i < |p| && inClass(p[i]) && forall j :: 0 <= j < i ==> p[j] != '\n'
  }

  /**
   * `[A-Za-z\d@$!%*?&]{8,}$` tried at the start of `p`: at least eight allowed
   * characters, then the end of the text or a single `\n` that ends it.
   */
  ghost predicate BodyMatches(p: string) {
    exists k :: 8 <= k <= |p| && (forall j :: 0 <= j < k ==> IsAllowed(p[j])) &&
      (p[k..] == "" || p[k..] == "\n")
  }

  /** `password_regex.match(p)` succeeds. */
  ghost predicate RegexMatches(p: string) {
    LookaheadFinds(p, IsUpper) && LookaheadFinds(p, IsLower) && LookaheadFinds(p, IsDigit) &&
    LookaheadFinds(p, IsSpecial) && BodyMatches(p)
  }

  /** The text without one final line break, which `$` lets through. */
  function WithoutFinalNewline(p: string): string {
    if |p| > 0 && p[|p| - 1] == '\n' then p[..|p| - 1] else p
  }

  /** The strength policy over characters: length, alphabet, and one of each class. */
  predicate MeetsPolicy(s: string) {
    |s| >= 8 &&
    (forall i :: 0 <= i < |s| ==> IsAllowed(s[i])) &&
    (exists i :: 0 <= i < |s| && IsUpper(s[i])) &&
    (exists i :: 0 <= i < |s| && IsLower(s[i])) &&
    (exists i :: 0 <= i < |s| && IsDigit(s[i])) &&
    (exists i :: 0 <= i < |s| && IsSpecial(s[i]))
  }

  /** The policy over the text without its final line break is what the regular expression accepts. */
  lemma PolicyIsRegex(p: string)
    ensures MeetsPolicy(WithoutFinalNewline(p)) <==> RegexMatches(p)
  {
    var s := WithoutFinalNewline(p);
    assert forall i :: 0 <= i < |s| ==> s[i] == p[i];
    if MeetsPolicy(s) {
      var k := |s|;
      assert p[k..] == "" || p[k..] == "\n";
      assert forall j :: 0 <= j < k ==> IsAllowed(p[j]);
    }
    if RegexMatches(p) {
      var k :| 8 <= k <= |p| && (forall j :: 0 <= j < k ==> IsAllowed(p[j])) &&
        (p[k..] == "" || p[k..] == "\n");
      assert k < |p| ==> p[k] == p[k..][0];
      assert k == |s|;
    }
  }

  /** `is_strong_password`. */
  function IsStrongPassword(p: string): (r: bool)
    ensures r <==> RegexMatches(p)
  {
    PolicyIsRegex(p);
    MeetsPolicy(WithoutFinalNewline(p))
  }

  /** Without a final line break, the regular expression is exactly the character policy. */
  lemma StrongMeansPolicy(p: string)
    requires |p| == 0 || p[|p| - 1] != '\n'
    ensures IsStrongPassword(p) <==> MeetsPolicy(p)
  {
  }

  /** A character outside the allowed alphabet rejects the password, unless it is the one final line break. */
  lemma ForbiddenCharacterRejects(p: string, i: nat)
    requires i < |p| && !IsAllowed(p[i])
    requires !(i == |p| - 1 && p[i] == '\n')
    ensures !IsStrongPassword(p)
  {

  }

  /** `$` matches before a final line break: a strong password followed by one `\n` is still accepted, by two it is not. */
  lemma FinalNewlineAccepted(p: string)
    requires IsStrongPassword(p) && (|p| == 0 || p[|p| - 1] != '\n')
    ensures IsStrongPassword(p + "\n")
    ensures !IsStrongPassword(p + "\n\n")
  {
    assert WithoutFinalNewline(p + "\n") == p;
    var q := p + "\n\n";
    assert WithoutFinalNewline(q)[|p|] == '\n';
  }

  // ---------------------------------------------------------------------------
  // post_signup

  const WeakPasswordMessage := "Password must be at least 8 characters long, contain at least one uppercase letter, one lowercase letter, one digit, and one special character."
  const MismatchMessage := "Passwords do not match with Confirm password."
  const SignupFailedMessage := "Signup failed."

  /** The arguments of a call to `Sign_up`. */
  datatype SignUpCall = SignUpCall(username: string, email: string, password: string)

  /** What `Sign_up` did: returned a value of some truthiness, or raised. */
  datatype SignUpResult = Returned(truthy: bool) | Raised(error: string)

  /**
   * The signup page shown again with an error, a redirect, or an exception
   * from `Sign_up` leaving the handler (nothing in `post_signup` catches it).
   */
  datatype Response = Rerender(error: string) | Redirect(url: string, statusCode: int) | Escaped(error: string)

  /** The response, and the call made to `Sign_up`, if any. */
  datatype Outcome = Outcome(response: Response, call: Option<SignUpCall>)

  /**
   * `post_signup`: strength first, then the confirmation, then `Sign_up`,
   * whose behaviour is `signUp`'s result.
   */
  function PostSignup(username: string, email: string, password: string, confirmPassword: string,
                      signUp: SignUpCall -> SignUpResult): (r: Outcome)
    ensures r.call.Some? <==> RegexMatches(password) && confirmPassword == password
    ensures r.call.Some? ==> r.call.value == SignUpCall(username, email, password)
    ensures !RegexMatches(password) ==> r.response == Rerender(WeakPasswordMessage)
    ensures RegexMatches(password) && confirmPassword != password ==> r.response == Rerender(MismatchMessage)
    ensures r.response.Redirect? <==> r.call.Some? && signUp(r.call.value) == Returned(true)
    ensures r.response.Redirect? ==> r.response == Redirect("/login", 303)
    ensures r.call.Some? && signUp(r.call.value) == Returned(false) ==> r.response == Rerender(SignupFailedMessage)
    ensures r.call.Some? && signUp(r.call.value).Raised? ==> r.response == Escaped(signUp(r.call.value).error)
  {
    if !IsStrongPassword(password) then
      Outcome(Rerender(WeakPasswordMessage), None)
    else if confirmPassword != password then
      Outcome(Rerender(MismatchMessage), None)
    else
      var call := SignUpCall(username, email, password);
      match signUp(call)
      case Returned(truthy) =>
        if truthy then Outcome(Redirect("/login", 303), Some(call))
        else Outcome(Rerender(SignupFailedMessage), Some(call))
      case Raised(e) => Outcome(Escaped(e), Some(call))
  }

  /** A redirect to the login page only ever follows a policy-conforming password that was confirmed. */
  lemma RedirectNeedsStrongConfirmedPassword(username: string, email: string, password: string,
                                             confirmPassword: string, signUp: SignUpCall -> SignUpResult)
    requires PostSignup(username, email, password, confirmPassword, signUp).response.Redirect?
    ensures MeetsPolicy(WithoutFinalNewline(password)) && confirmPassword == password
  {
  }
}
