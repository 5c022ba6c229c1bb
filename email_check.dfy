/**
 * The sign-up address gate of src/utils/emailCheck.ts. The mode (`SIGNUP_EMAIL_CHECK`) and the
 * MX flag (`MAIL_MX_CHECK`) are parameters; the MX lookup is an oracle.
 */
module EmailCheck {
  import opened Wrappers
  import opened Text
  import opened Dns

  /** Line 4-6: the gate's own list. */
  const Disposable: set<string> := {"mailinator.com", "10minutemail.com", "tempmail.com", "guerrillamail.com", "yopmail.com"}

  datatype CheckError = InvalidEmail | DisposableDomain | NoMx

  /** A character of `[^@\s]`. */
  predicate Plain(c: char) {
    c != '@' && !IsSpace(c)
  }

  /** `[^@\s]+`. */
  predicate PlainRun(s: string) {
    |s| >= 1 && forall i :: 0 <= i < |s| ==> Plain(s[i])
  }

  /** What `/^[^@\s]+@([^@\s]+)$/` matches: two plain runs around an `@`. */
  ghost predicate AddressPattern(email: string) {
    exists i :: 0 <= i < |email| && email[i] == '@' && PlainRun(email[..i]) && PlainRun(email[i + 1..])
  }

  /** Line 10: the captured domain, when the whole input matches. */
  function CaptureDomain(email: string): (r: Option<string>)
    ensures r.Some? <==> AddressPattern(email)
    ensures r.Some? ==> PlainRun(r.value) && exists local :: PlainRun(local) && email == local + "@" + r.value
  {
    match IndexOf(email, '@')
    case None =>
      None
    case Some(at) =>
      CaptureAt(email, at);
      if PlainRun(email[..at]) && PlainRun(email[at + 1..]) then
        assert email == email[..at] + "@" + email[at + 1..];
        Some(email[at + 1..])
      else None
  }

  /** The pattern can only split the input at its first `@`. */
  lemma CaptureAt(email: string, at: nat)
    requires at < |email| && email[at] == '@' && '@' !in email[..at]
    ensures AddressPattern(email) <==> PlainRun(email[..at]) && PlainRun(email[at + 1..])
  {
    if AddressPattern(email) {
      var i :| 0 <= i < |email| && email[i] == '@' && PlainRun(email[..i]) && PlainRun(email[i + 1..]);
      assert '@' !in email[..i];
    }
  }

  /** `checkEmailAccept` (lines 8-27). */
  function CheckEmailAccept(email: string, mode: string, mxCheck: bool, mx: string -> MxLookup): (r: Result<(), CheckError>)
    ensures mode == "off" ==> r.Ok?
    ensures mode != "off" && !AddressPattern(email) ==> r == Err(InvalidEmail)
    ensures r == Err(DisposableDomain) ==> mode == "strict"
    ensures r == Err(NoMx) ==> mxCheck
  {
    if mode == "off" then Ok(())
    else
      match CaptureDomain(email)
      case None => Err(InvalidEmail)
      case Some(captured) =>
        var domain := ToLower(captured);
        if domain in Disposable && mode == "strict" then Err(DisposableDomain)
        else if mxCheck && !HasMx(mx(domain)) then Err(NoMx)
        else Ok(())
  }

  /** On a well-formed address the verdict is decided by its lower-cased domain: the list (in
      strict mode only), then, with the flag on, the MX answer for that domain. */
  lemma CheckAddress(local: string, domain: string, mode: string, mxCheck: bool, mx: string -> MxLookup)
    requires PlainRun(local) && PlainRun(domain) && mode != "off"
    ensures CheckEmailAccept(local + "@" + domain, mode, mxCheck, mx) ==
      if ToLower(domain) in Disposable && mode == "strict" then Err(DisposableDomain)
      else if mxCheck && !HasMx(mx(ToLower(domain))) then Err(NoMx)
      else Ok(())
  {
    var email := local + "@" + domain;
    assert email[..|local|] == local && email[|local| + 1..] == domain;
    assert '@' !in local;
    assert IndexOf(email, '@') == Some(|local|);
  }

  /** A soft mode never refuses a listed domain, and without the flag no answer of the resolver
      changes the verdict. */
  lemma SoftAndOffline(email: string, mode: string, mxCheck: bool, mx1: string -> MxLookup, mx2: string -> MxLookup)
    ensures mode != "strict" ==> CheckEmailAccept(email, mode, mxCheck, mx1) != Err(DisposableDomain)
    ensures !mxCheck ==> CheckEmailAccept(email, mode, mxCheck, mx1) == CheckEmailAccept(email, mode, mxCheck, mx2)
  {
  }

  /** The domain is lower-cased before the lookup: a listed domain in capitals is refused in
      strict mode. */
  lemma ListedInCapitals(local: string, mxCheck: bool, mx: string -> MxLookup)
    requires PlainRun(local)
    ensures CheckEmailAccept(local + "@" + "MAILINATOR.COM", "strict", mxCheck, mx) == Err(DisposableDomain)
  {
    assert ToLower("MAILINATOR.COM") == "mailinator.com";
    assert PlainRun("MAILINATOR.COM");
    CheckAddress(local, "MAILINATOR.COM", "strict", mxCheck, mx);
  }

  /** Whitespace on either side, a second `@`, or an empty side makes the address invalid. */
  lemma RejectsMalformed(local: string, domain: string, mode: string, mxCheck: bool, mx: string -> MxLookup)
    requires mode != "off"
    requires !PlainRun(local) || !PlainRun(domain)
    requires '@' !in local
    ensures CheckEmailAccept(local + "@" + domain, mode, mxCheck, mx) == Err(InvalidEmail)
  {
    var email := local + "@" + domain;
    assert email[..|local|] == local && email[|local| + 1..] == domain;
    CaptureAt(email, |local|);
  }
}
