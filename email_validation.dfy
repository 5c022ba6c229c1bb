/**
 * The sign-up address check of src/utils/emailValidation.ts: a format check, a lookup in the
 * disposable-domain list of an external package (a parameter here), and an MX lookup.
 */
module EmailValidation {
  import opened Text
  import opened Dns

  /** Line 4: the package's domains, lower-cased. */
  function DisposableSet(package: seq<string>): (r: set<string>)
    ensures forall p :: p in package ==> ToLower(p) in r
    ensures forall d :: d in r ==> exists p :: p in package && ToLower(p) == d
  {
    set p | p in package :: ToLower(p)
  }

  /** `replace(/^www\./, "")`: one leading `www.` removed. */
  function StripWww(d: string): (r: string)
    ensures StartsWith(d, "www.") ==> d == "www." + r
    ensures !StartsWith(d, "www.") ==> r == d
  {
    if StartsWith(d, "www.") then d[4..] else d
  }

  /** `isDisposableDomain` (lines 6-9): the lower-cased domain, or the same without one leading
      `www.`, is in the list. */
  function IsDisposableDomain(domain: string, package: seq<string>): bool {
    var d := ToLower(domain);
    d in DisposableSet(package) || StripWww(d) in DisposableSet(package)
  }

  /** The check does not depend on the case the domain is written in. */
  lemma DisposableIgnoresCase(a: string, b: string, package: seq<string>)
    requires ToLower(a) == ToLower(b)
    ensures IsDisposableDomain(a, package) == IsDisposableDomain(b, package)
  {
  }

  lemma DisposableIgnoresUpperCase(domain: string, package: seq<string>)
    ensures IsDisposableDomain(ToUpper(domain), package) == IsDisposableDomain(domain, package)
  {
    LowerOfUpper(domain);
  }

  /** A listed domain is caught bare and behind one `www.`, whatever its case. */
  lemma DisposableWithWww(domain: string, package: seq<string>)
    requires ToLower(domain) in DisposableSet(package)
    ensures IsDisposableDomain(domain, package)
    ensures IsDisposableDomain("www." + domain, package)
  {
    LowerOfConcat("www.", domain);
    assert ToLower("www.") == "www.";
    var d := "www." + ToLower(domain);
    assert d[..4] == "www." && d[4..] == ToLower(domain);
  }

  /** Only one `www.` is removed: `www.www.` in front of a listed domain is not caught unless
      the longer names are listed too. */
  lemma OnlyOneWwwStripped(domain: string, package: seq<string>)
    requires IsLowerCased(domain)
    requires "www.www." + domain !in DisposableSet(package) && "www." + domain !in DisposableSet(package)
    ensures !IsDisposableDomain("www.www." + domain, package)
  {
    LowerOfConcat("www.www.", domain);
    assert ToLower("www.www.") == "www.www.";
    var d := "www.www." + domain;
    assert d[..4] == "www." && d[4..] == "www." + domain;
  }

  /** The verdicts of `validateEmailForSignup`, in the order the checks run. */
  datatype SignupVerdict = SignupOk | InvalidFormat | Disposable | NoMx

  /** `validateEmailForSignup` (lines 20-27). `mx` answers the lookup for each domain. */
  function ValidateEmailForSignup(email: string, package: seq<string>, mx: string -> MxLookup): (r: SignupVerdict)
    ensures r == InvalidFormat <==> multiset(email)['@'] != 1
  {
    var parts := Split(email, '@');
    SplitJoin(email, '@');
    if |parts| != 2 then InvalidFormat
    else
      var domain := ToLower(parts[1]);
      if IsDisposableDomain(domain, package) then Disposable
      else if !HasMx(mx(domain)) then NoMx
      else SignupOk
  }

  /** On an address with one `@`, the verdict is decided by the text after it, lower-cased:
      the block list first, then the MX answer for that exact domain. */
  lemma ValidateAddress(local: string, domain: string, package: seq<string>, mx: string -> MxLookup)
    requires '@' !in local && '@' !in domain
    ensures ValidateEmailForSignup(local + "@" + domain, package, mx) ==
      if IsDisposableDomain(domain, package) then Disposable
      else if !HasMx(mx(ToLower(domain))) then NoMx
      else SignupOk
  {
    var email := local + "@" + domain;
    assert email[..|local|] == local && email[|local| + 1..] == domain;
    SplitFirst(email, '@', |local|);
    SplitNone(domain, '@');
    LowerIsIdempotent(domain);
    DisposableIgnoresCase(ToLower(domain), domain, package);
  }

  /** A disposable domain is refused before any lookup: the verdict does not depend on the MX
      answers. The same holds for a malformed address. */
  lemma DisposableSkipsLookup(email: string, package: seq<string>, mx1: string -> MxLookup, mx2: string -> MxLookup)
    ensures ValidateEmailForSignup(email, package, mx1) in {Disposable, InvalidFormat} ==>
      ValidateEmailForSignup(email, package, mx2) == ValidateEmailForSignup(email, package, mx1)
  {
  }

  /** An accepted address has one `@`, a domain that is not listed, and MX records. */
  lemma SignupOkMeans(email: string, package: seq<string>, mx: string -> MxLookup)
    requires ValidateEmailForSignup(email, package, mx) == SignupOk
    ensures multiset(email)['@'] == 1
    ensures var domain := ToLower(Split(email, '@')[1]);
      !IsDisposableDomain(domain, package) && HasMx(mx(domain))
  {
  }
}
