/**
 * Address checks of src/utils/email.ts: domain extraction, a syntax check close to the
 * `addr-spec` of section 3.4.1 of RFC 5322 with labels as in section 2.3.4 of RFC 1035, and the
 * disposable-provider block list. The `DISPOSABLE_EXTRA` environment variable is a parameter.
 */
module Email {
  import opened Wrappers
  import opened Text

  /** The built-in block list, in its written order (`guerrillamailblock.com` is written twice). */
  const BaseDisposable: seq<string> := [
    "mailinator.com", "yopmail.com", "10minutemail.com", "10minutemail.net", "10minutemail.org",
    "tempmail.org", "temp-mail.org", "tempmailo.com", "tempmail.dev", "tempmail.ninja",
    "tempmail.plus", "maildrop.cc", "mohmal.com", "guerrillamail.com", "sharklasers.com",
    "grr.la", "guerrillamailblock.com", "getnada.com", "dropmail.me", "mailnesia.com",
    "trashmail.com", "trash-mail.com", "trashmail.de", "dispostable.com", "mailcatch.com",
    "throwawaymail.com", "minuteinbox.com", "tempail.com", "spambox.xyz", "fakemail.net",
    "spamgourmet.com", "jetable.org", "mailtm.com", "mytemp.email", "owlymail.com",
    "gmx.us", "guerrillamail.de", "guerrillamail.net", "guerrillamail.org", "guerrillamail.biz",
    "guerrillamail.info", "guerrillamailblock.com"
  ]

  // ---------------------------------------------------------------- extractDomain

  /** The input trimmed and lower-cased, as `extractDomain` first normalises it. */
  function Normalize(input: string): string {
    ToLower(Trim(input))
  }

  /** `extractDomain`: the normalised text after the last `@` (or the whole text when there is
      none), without trailing dots. An empty input, a trailing `@` and a domain made only of dots
      give `null`. Without an `@` the result may be the empty string, which callers treat as
      missing. */
  function ExtractDomain(input: string): (r: Option<string>)
    ensures input == [] ==> r == None
    ensures r.Some? ==> '@' !in r.value
    ensures r.Some? ==> r.value == [] || r.value[|r.value| - 1] != '.'
  {
    if input == [] then None else DomainOf(Normalize(input))
  }

  /** The text after the last `@`, or the whole text when there is none. */
  function AfterLastAt(s: string): string {
    match LastIndexOf(s, '@')
    case None => s
    case Some(at) => s[at + 1..]
  }

  /** Lines 56-64, on the normalised text `s`: the domain is what follows the last `@` with its
      trailing dots removed, and is missing only when that is nothing but dots after an `@`. */
  function DomainOf(s: string): (r: Option<string>)
    ensures '@' !in s ==> r.Some?
    ensures r.Some? ==> '@' !in r.value
    ensures r.Some? ==> r.value == [] || r.value[|r.value| - 1] != '.'
    ensures r.Some? ==> r.value <= AfterLastAt(s)
    ensures r.Some? ==> forall i :: |r.value| <= i < |AfterLastAt(s)| ==> AfterLastAt(s)[i] == '.'
  {
    match LastIndexOf(s, '@')
    case None => Some(StripTrailingDots(s))
    case Some(at) =>
      if at == |s| - 1 then None
      else
        var domain := StripTrailingDots(s[at + 1..]);
        if domain == [] then None else Some(domain)
  }

  /** Lower-casing keeps the position of every `@` and every `.`. */
  lemma LowerKeepsMarks(t: string)
    ensures |ToLower(t)| == |t|
    ensures forall i :: 0 <= i < |t| ==> (ToLower(t)[i] == '@' <==> t[i] == '@')
    ensures forall i :: 0 <= i < |t| ==> (ToLower(t)[i] == '.' <==> t[i] == '.')
    ensures LastIndexOf(ToLower(t), '@') == LastIndexOf(t, '@')
  {
    forall i | 0 <= i < |t| {
      LowerKeepsSpaces(t[i]);
    }
  }

  /** The extracted domain is always lower-cased. */
  lemma ExtractDomainLowerCased(input: string)
    ensures ExtractDomain(input).Some? ==> IsLowerCased(ExtractDomain(input).value)
  {
    if input != [] {
      LowerIsIdempotent(Trim(input));
      DomainOfLowerCased(Normalize(input));
    }
  }

  lemma DomainOfLowerCased(s: string)
    requires IsLowerCased(s)
    ensures DomainOf(s).Some? ==> IsLowerCased(DomainOf(s).value)
  {
    match LastIndexOf(s, '@')
    case None =>
      LowerCasedSlice(s, 0, |StripTrailingDots(s)|);
    case Some(at) =>
      if at < |s| - 1 {
        var tail := s[at + 1..];
        LowerCasedSlice(s, at + 1, at + 1 + |StripTrailingDots(tail)|);
        assert s[at + 1..at + 1 + |StripTrailingDots(tail)|] == StripTrailingDots(tail);
      }
  }

  /** Any slice of a lower-cased string is lower-cased. */
  lemma LowerCasedSlice(s: string, i: nat, j: nat)
    requires IsLowerCased(s) && i <= j <= |s|
    ensures IsLowerCased(s[i..j])
  {
    forall k | i <= k < j ensures Lower(s[k]) == s[k] {
      assert ToLower(s)[k] == s[k];
    }
    assert forall k :: 0 <= k < j - i ==> ToLower(s[i..j])[k] == s[i..j][k];
  }

  /** The text has an `@` and nothing but dots after the last one. */
  predicate DotsAfterLastAt(s: string) {
    '@' in s && forall j :: LastIndexOf(s, '@').value < j < |s| ==> s[j] == '.'
  }

  /** `extractDomain` gives `null` exactly for an empty input and for one whose trimmed text
      has an `@` followed by nothing but dots. */
  lemma ExtractDomainNull(input: string)
    ensures ExtractDomain(input).None? <==> input == [] || DotsAfterLastAt(Trim(input))
  {
    if input != [] {
      var t := Trim(input);
      LowerKeepsMarks(t);
      MarksAgree(ToLower(t), t);
      DomainOfNull(ToLower(t));
    }
  }

  /** Two strings with `@` and `.` in the same places agree on `DotsAfterLastAt`. */
  lemma MarksAgree(a: string, b: string)
    requires |a| == |b| && LastIndexOf(a, '@') == LastIndexOf(b, '@')
    requires forall i :: 0 <= i < |a| ==> (a[i] == '.' <==> b[i] == '.')
    ensures DotsAfterLastAt(a) == DotsAfterLastAt(b)
  {
  }

  lemma DomainOfNull(s: string)
    ensures DomainOf(s).None? <==> DotsAfterLastAt(s)
  {
    match LastIndexOf(s, '@')
    case None =>
    case Some(at) =>
      var tail := s[at + 1..];
      StripDotsEmpty(tail);
      assert (forall j :: 0 <= j < |tail| ==> tail[j] == '.') <==> (forall j :: at < j < |s| ==> s[j] == '.') by {
        assert forall j :: at < j < |s| ==> tail[j - at - 1] == s[j];
      }
  }

  /** Round trip: the domain of `local@domain`, for a domain already in normal form, is that
      domain. */
  lemma ExtractDomainOfAddress(local: string, domain: string)
    requires local == [] || !IsSpace(local[0])
    requires domain != [] && !IsSpace(domain[|domain| - 1]) && domain[|domain| - 1] != '.'
    requires '@' !in domain && IsLowerCased(domain)
    ensures ExtractDomain(local + "@" + domain) == Some(domain)
  {
    var s := Normalize(local + "@" + domain);
    NormalizeAddress(local, domain);
    assert s[|s| - 1] == domain[|domain| - 1] by {
      assert s[|local| + 1..][|domain| - 1] == domain[|domain| - 1];
    }
    DomainOfAddress(s, |local|);
  }

  /** Normalising such an address lower-cases its local part and leaves the rest. */
  lemma NormalizeAddress(local: string, domain: string)
    requires local == [] || !IsSpace(local[0])
    requires domain != [] && !IsSpace(domain[|domain| - 1])
    requires IsLowerCased(domain)
    ensures Normalize(local + "@" + domain) == ToLower(local) + "@" + domain
    ensures var s := Normalize(local + "@" + domain);
      |s| == |local| + 1 + |domain| && s[|local|] == '@' && s[|local| + 1..] == domain
  {
    var input := local + "@" + domain;
    assert !IsSpace(input[0]) && input[|input| - 1] == domain[|domain| - 1];
    TrimKeepsTrimmed(input);
    LowerOfConcat(local, "@");
    LowerOfConcat(local + "@", domain);
    assert ToLower("@") == "@" by {
      assert Lower('@') == '@';
    }
  }

  lemma DomainOfAddress(s: string, at: nat)
    requires at < |s| - 1 && s[at] == '@' && '@' !in s[at + 1..] && s[|s| - 1] != '.'
    ensures DomainOf(s) == Some(s[at + 1..])
  {
    var last := LastIndexOf(s, '@');
    assert s[at] in s;
    assert last == Some(at);
  }

  /** Whatever precedes the last `@`, and whatever dots trail the domain, the domain comes back
      without them: `a@b.com.` gives `b.com`. */
  lemma DomainOfDotted(local: string, d: string, n: nat)
    requires d != [] && d[|d| - 1] != '.' && '@' !in d
    ensures DomainOf(local + "@" + d + Dots(n)) == Some(d)
  {
    var s := local + "@" + d + Dots(n);
    var at := |local|;
    assert s[at] == '@';
    assert s[at + 1..] == d + Dots(n);
    assert '@' !in Dots(n);
    assert LastIndexOf(s, '@') == Some(at) by {
      assert s[at] in s;
      assert '@' !in s[at + 1..];
    }
    StripDotsOf(d, n);
  }

  /** A bare domain in normal form is its own domain, whatever dots trail it. */
  lemma ExtractDomainOfDomain(d: string, dots: nat)
    requires d != [] && !IsSpace(d[0]) && !IsSpace(d[|d| - 1]) && d[|d| - 1] != '.'
    requires '@' !in d && IsLowerCased(d)
    ensures ExtractDomain(d + Dots(dots)) == Some(d)
  {
    var input := d + Dots(dots);
    assert input[0] == d[0];
    assert !IsSpace(input[|input| - 1]);
    TrimKeepsTrimmed(input);
    LowerKeepsMarks(input);
    assert ToLower(input) == input by {
      assert forall i :: 0 <= i < |d| ==> ToLower(input)[i] == ToLower(d)[i];
      assert forall i :: |d| <= i < |input| ==> input[i] == '.';
    }
    assert '@' !in input by {
      assert forall i :: |d| <= i < |input| ==> input[i] == '.';
    }
    StripDotsOf(d, dots);
  }

  // ---------------------------------------------------------------- isValidEmail

  /** Characters the pattern allows before the `@`. */
  predicate IsLocalChar(c: char) {
    || IsAsciiAlnum(c)
    || c == '.' || c == '!' || c == '#' || c == '$' || c == '%' || c == '&' || c == '\''
    || c == '*' || c == '+' || c == '/' || c == '=' || c == '?' || c == '^' || c == '_'
    || c == '`' || c == '{' || c == '|' || c == '}' || c == '~' || c == '-'
  }

  /** No `@` can appear in the local run. */
  lemma LocalRunHasNoAt(l: string)
    requires IsLocalRun(l)
    ensures '@' !in l
  {
  }

  predicate IsLocalRun(s: string) {
    |s| >= 1 && forall i :: 0 <= i < |s| ==> IsLocalChar(s[i])
  }

  predicate IsLabelChar(c: char) {
    IsAsciiAlnum(c) || c == '-'
  }

  /** One domain label: 1 to 63 letters, digits or hyphens, with a letter or digit at each end. */
  predicate IsLabel(p: string) {
    1 <= |p| <= 63 && IsAsciiAlnum(p[0]) && IsAsciiAlnum(p[|p| - 1])
    && forall i :: 0 <= i < |p| ==> IsLabelChar(p[i])
  }

  predicate AllLabels(ps: seq<string>) {
    forall i :: 0 <= i < |ps| ==> IsLabel(ps[i])
  }

  /** What the domain half of the pattern matches: two or more labels joined by dots. */
  ghost predicate DomainPattern(d: string) {
    exists labels :: |labels| >= 2 && AllLabels(labels) && Join(labels, '.') == d
  }

  /** What the whole pattern matches: a local run, an `@`, and a domain. */
  ghost predicate EmailPattern(s: string) {
    exists i :: 0 <= i < |s| && s[i] == '@' && IsLocalRun(s[..i]) && DomainPattern(s[i + 1..])
  }

  /** The local-part rule of lines 85-86: no leading, trailing or doubled dot. */
  predicate DotsWellPlaced(local: string) {
    !StartsWith(local, ".") && !EndsWith(local, ".") && !ContainsPair(local, '.', '.')
  }

  /** An acceptable address: 6 to 254 characters, the pattern, and the dot rule on the local part. */
  ghost predicate ValidAddress(s: string) {
    && 6 <= |s| <= 254
    && exists i :: 0 <= i < |s| && s[i] == '@' && IsLocalRun(s[..i]) && DotsWellPlaced(s[..i]) && DomainPattern(s[i + 1..])
  }

  /** The domain half, decided by splitting on dots. */
  function DomainMatches(d: string): bool {
    var labels := Split(d, '.');
    |labels| >= 2 && AllLabels(labels)
  }

  /** The pattern of lines 79-80, decided at the first `@`. */
  function MatchesPattern(s: string): (r: bool)
    ensures r <==> EmailPattern(s)
  {
    match IndexOf(s, '@')
    case None =>
      false
    case Some(at) =>
      PatternAt(s, at);
      IsLocalRun(s[..at]) && DomainMatches(s[at + 1..])
  }

  /** The pattern can only split an address at its first `@`, and there it is decided by
      `DomainMatches`. */
  lemma PatternAt(s: string, at: nat)
    requires at < |s| && s[at] == '@' && '@' !in s[..at]
    ensures EmailPattern(s) <==> IsLocalRun(s[..at]) && DomainMatches(s[at + 1..])
  {
    if IsLocalRun(s[..at]) && DomainMatches(s[at + 1..]) {
      DomainMatchesSound(s[at + 1..]);
    }
    if EmailPattern(s) {
      PatternAtFirst(s, at);
    }
  }

  /** Any split the pattern finds is at the first `@`. */
  lemma PatternAtFirst(s: string, at: nat)
    requires at < |s| && s[at] == '@' && '@' !in s[..at]
    requires EmailPattern(s)
    ensures IsLocalRun(s[..at]) && DomainMatches(s[at + 1..])
  {
    var i :| 0 <= i < |s| && s[i] == '@' && IsLocalRun(s[..i]) && DomainPattern(s[i + 1..]);
    LocalRunHasNoAt(s[..i]);
    FirstAt(s, at, i);
    DomainMatchesComplete(s[i + 1..]);
  }

  /** Two positions that each hold the first `@` are the same. */
  lemma FirstAt(s: string, a: nat, b: nat)
    requires a < |s| && s[a] == '@' && '@' !in s[..a]
    requires b < |s| && s[b] == '@' && '@' !in s[..b]
    ensures a == b
  {
    assert forall j :: 0 <= j < b ==> s[..b][j] == s[j];
    assert forall j :: 0 <= j < a ==> s[..a][j] == s[j];
  }

  lemma DomainMatchesSound(d: string)
    requires DomainMatches(d)
    ensures DomainPattern(d)
  {
    var labels := Split(d, '.');
    SplitJoin(d, '.');
    assert |labels| >= 2 && AllLabels(labels) && Join(labels, '.') == d;
  }

  lemma DomainMatchesComplete(d: string)
    requires DomainPattern(d)
    ensures DomainMatches(d)
  {
    var labels :| |labels| >= 2 && AllLabels(labels) && Join(labels, '.') == d;
    assert forall i :: 0 <= i < |labels| ==> '.' !in labels[i] by {
      forall i | 0 <= i < |labels| ensures '.' !in labels[i] {
        assert IsLabel(labels[i]);
      }
    }
    SplitOfJoin(labels, '.');
  }

  /** Labels hold no dot, so splitting their join on dots gives them back. */
  lemma {:induction false} SplitOfJoin(labels: seq<string>, sep: char)
    requires |labels| >= 1
    requires forall i :: 0 <= i < |labels| ==> sep !in labels[i]
    ensures Split(Join(labels, sep), sep) == labels
  {
    if |labels| == 1 {
      SplitNone(labels[0], sep);
    } else {
      var rest := Join(labels[1..], sep);
      var j := Join(labels, sep);
      assert j == labels[0] + [sep] + rest;
      var n := |labels[0]|;
      assert j[..n] == labels[0];
      assert j[n + 1..] == rest;
      SplitFirst(j, sep, n);
      SplitOfJoin(labels[1..], sep);
      assert labels == [labels[0]] + labels[1..];
    }
  }

  /** `isValidEmail`: accepts exactly the valid addresses, after trimming. */
  function IsValidEmail(email: string): (r: bool)
    ensures r <==> ValidAddress(Trim(email))
  {
    if email == [] then false
    else
      var s := Trim(email);
      if |s| < 6 || |s| > 254 then false
      else if !MatchesPattern(s) then false
      else
        var local := Split(s, '@')[0];
        ValidLocalPart(s);
        DotsWellPlaced(local)
  }

  /** Under the pattern, the first piece of the split on `@` is the local run the pattern saw. */
  lemma ValidLocalPart(s: string)
    requires EmailPattern(s)
    ensures ValidAddress(s) <==> 6 <= |s| <= 254 && DotsWellPlaced(Split(s, '@')[0])
  {
    var i :| 0 <= i < |s| && s[i] == '@' && IsLocalRun(s[..i]) && DomainPattern(s[i + 1..]);
    LocalRunHasNoAt(s[..i]);
    SplitFirst(s, '@', i);
    assert Split(s, '@')[0] == s[..i];
    if ValidAddress(s) {
      var k :| 0 <= k < |s| && s[k] == '@' && IsLocalRun(s[..k]) && DotsWellPlaced(s[..k]) && DomainPattern(s[k + 1..]);
      LocalRunHasNoAt(s[..k]);
      assert k == i;
    }
    if 6 <= |s| <= 254 && DotsWellPlaced(s[..i]) {
      assert 0 <= i < |s| && s[i] == '@' && IsLocalRun(s[..i]) && DotsWellPlaced(s[..i]) && DomainPattern(s[i + 1..]);
    }
  }

  /** Labels and the separator hold no `@`, so neither does their join. */
  lemma {:induction false} JoinAvoids(labels: seq<string>, sep: char, c: char)
    requires |labels| >= 1 && c != sep
    requires forall i :: 0 <= i < |labels| ==> c !in labels[i]
    ensures c !in Join(labels, sep)
  {
    if |labels| > 1 {
      JoinAvoids(labels[1..], sep, c);
    }
  }

  /** An accepted address has exactly one `@`, two or more valid labels after it, and a local
      part of at least one allowed character with its dots well placed. */
  lemma ValidEmailShape(email: string)
    requires IsValidEmail(email)
    ensures var s := Trim(email);
      && 6 <= |s| <= 254
      && multiset(s)['@'] == 1
      && |Split(s, '@')| == 2
      && IsLocalRun(Split(s, '@')[0]) && DotsWellPlaced(Split(s, '@')[0])
      && DomainMatches(Split(s, '@')[1])
  {
    ValidAddressShape(Trim(email));
  }

  lemma ValidAddressShape(s: string)
    requires ValidAddress(s)
    ensures multiset(s)['@'] == 1
    ensures |Split(s, '@')| == 2
    ensures IsLocalRun(Split(s, '@')[0]) && DotsWellPlaced(Split(s, '@')[0])
    ensures DomainMatches(Split(s, '@')[1])
  {
    var i :| 0 <= i < |s| && s[i] == '@' && IsLocalRun(s[..i]) && DotsWellPlaced(s[..i]) && DomainPattern(s[i + 1..]);
    var local, domain := s[..i], s[i + 1..];
    LocalRunHasNoAt(local);
    DomainHasNoAt(domain);
    SingleAt(s, i);
    SplitAtOnly(s, i);
    DomainMatchesComplete(domain);
  }

  /** Splitting on the only `@` gives the text before and after it. */
  lemma SplitAtOnly(s: string, i: nat)
    requires i < |s| && s[i] == '@' && '@' !in s[..i] && '@' !in s[i + 1..]
    ensures Split(s, '@') == [s[..i], s[i + 1..]]
  {
    SplitFirst(s, '@', i);
    SplitNone(s[i + 1..], '@');
  }

  /** An `@` with none before or after it is the only one. */
  lemma SingleAt(s: string, i: nat)
    requires i < |s| && s[i] == '@' && '@' !in s[..i] && '@' !in s[i + 1..]
    ensures multiset(s)['@'] == 1
  {
    assert s == s[..i] + [s[i]] + s[i + 1..];
    assert multiset(s) == multiset(s[..i]) + multiset([s[i]]) + multiset(s[i + 1..]);
  }

  lemma DomainHasNoAt(d: string)
    requires DomainPattern(d)
    ensures '@' !in d
  {
    var labels :| |labels| >= 2 && AllLabels(labels) && Join(labels, '.') == d;
    forall i | 0 <= i < |labels| ensures '@' !in labels[i] {
      assert IsLabel(labels[i]);
    }
    JoinAvoids(labels, '.', '@');
  }

  /** Completeness: a local run with well-placed dots, an `@` and two or more labels make an
      accepted address whenever the length fits. */
  lemma AcceptsAddress(local: string, labels: seq<string>)
    requires IsLocalRun(local) && DotsWellPlaced(local)
    requires |labels| >= 2 && AllLabels(labels)
    requires 6 <= |local| + 1 + |Join(labels, '.')| <= 254
    ensures IsValidEmail(local + "@" + Join(labels, '.'))
  {
    AddressOfParts(local, labels);
    AddressIsTrimmed(local, labels);
  }

  /** The parts assembled, split at the `@` between them, satisfy the pattern and the dot rule. */
  lemma AddressOfParts(local: string, labels: seq<string>)
    requires IsLocalRun(local) && DotsWellPlaced(local)
    requires |labels| >= 2 && AllLabels(labels)
    requires 6 <= |local| + 1 + |Join(labels, '.')| <= 254
    ensures ValidAddress(local + "@" + Join(labels, '.'))
  {
    var d := Join(labels, '.');
    var s := local + "@" + d;
    assert s[..|local|] == local && s[|local| + 1..] == d;
    assert DomainPattern(d);
  }

  /** Such an address starts and ends with characters `trim` keeps. */
  lemma AddressIsTrimmed(local: string, labels: seq<string>)
    requires IsLocalRun(local) && |labels| >= 2 && AllLabels(labels)
    ensures Trim(local + "@" + Join(labels, '.')) == local + "@" + Join(labels, '.')
  {
    var d := Join(labels, '.');
    var s := local + "@" + d;
    LabelsEnd(labels);
    assert s[0] == local[0] && s[|s| - 1] == d[|d| - 1];
    LocalCharNotSpace(s[0]);
    LocalCharNotSpace(s[|s| - 1]);
    TrimKeepsTrimmed(s);
  }

  lemma LocalCharNotSpace(c: char)
    requires IsLocalChar(c)
    ensures !IsSpace(c)
  {
  }

  /** A join of labels ends with a letter or digit. */
  lemma {:induction false} LabelsEnd(labels: seq<string>)
    requires |labels| >= 1 && AllLabels(labels)
    ensures var d := Join(labels, '.'); |d| >= 1 && IsAsciiAlnum(d[|d| - 1])
  {
    if |labels| > 1 {
      LabelsEnd(labels[1..]);
      var rest := Join(labels[1..], '.');
      assert Join(labels, '.') == labels[0] + ['.'] + rest;
    } else {
      assert IsLabel(labels[0]);
    }
  }

  /** The smallest accepted shape. */
  lemma AcceptsShortAddress()
    ensures IsValidEmail("a@b.co")
  {
    assert IsLabel("b") && IsLabel("co");
    assert "a"[..1] == "a" && "a"[0..] == "a";
    assert DotsWellPlaced("a");
    assert "a" + "@" + Join(["b", "co"], '.') == "a@b.co" by {
      assert Join(["b", "co"], '.') == "b.co";
    }
    AcceptsAddress("a", ["b", "co"]);
  }

  /** A join of two or more pieces holds the separator. */
  lemma JoinHasSep(labels: seq<string>, sep: char)
    requires |labels| >= 2
    ensures sep in Join(labels, sep)
  {
    assert Join(labels, sep) == labels[0] + [sep] + Join(labels[1..], sep);
    assert Join(labels, sep)[|labels[0]|] == sep;
  }

  /** Soundness, for a domain without a dot: a single label is never enough. */
  lemma RejectsDotlessDomain(local: string, domain: string)
    requires '@' !in local && '.' !in domain
    ensures !ValidAddress(local + "@" + domain)
  {
    var s := local + "@" + domain;
    DotlessIsNoDomain(domain);
    forall i | 0 <= i < |s| && s[i] == '@' && IsLocalRun(s[..i])
      ensures s[i + 1..] == domain
    {
      LocalRunHasNoAt(s[..i]);
      assert i <= |local| ==> s[..i] == local[..i];
      assert s[|local|] == '@';
    }
  }

  lemma DotlessIsNoDomain(d: string)
    requires '.' !in d
    ensures !DomainPattern(d)
  {
    forall labels | |labels| >= 2 && Join(labels, '.') == d
      ensures false
    {
      JoinHasSep(labels, '.');
    }
  }

  /** Soundness, for the dot rule: a local part with a leading, trailing or doubled dot is
      rejected whatever follows the `@`. */
  lemma RejectsBadDots(local: string, domain: string)
    requires '@' !in local && !DotsWellPlaced(local)
    ensures !ValidAddress(local + "@" + domain)
  {
    var s := local + "@" + domain;
    assert forall j :: 0 <= j < |local| ==> s[j] == local[j];
    assert s[|local|] == '@';
    forall i | 0 <= i < |s| && s[i] == '@' && IsLocalRun(s[..i])
      ensures s[..i] == local
    {
      LocalRunHasNoAt(s[..i]);
      assert i <= |local| ==> s[..i] == local[..i];
    }
  }

  /** A host name alone is not a domain with two labels. */
  lemma RejectsHostOnly()
    ensures !ValidAddress("user@localhost")
  {
    assert "user@localhost" == "user" + "@" + "localhost";
    RejectsDotlessDomain("user", "localhost");
  }

  /** A leading dot in the local part is refused. */
  lemma RejectsLeadingDot()
    ensures !ValidAddress(".user@example.com")
  {
    assert ".user@example.com" == ".user" + "@" + "example.com";
    assert ".user"[..1] == ".";
    RejectsBadDots(".user", "example.com");
  }

  /** A doubled dot in the local part is refused. */
  lemma RejectsDoubledDot()
    ensures !ValidAddress("us..er@example.com")
  {
    assert "us..er@example.com" == "us..er" + "@" + "example.com";
    assert "us..er"[2] == '.' && "us..er"[3] == '.';
    RejectsBadDots("us..er", "example.com");
  }

  // ---------------------------------------------------------------- isDisposableDomain

  /** `bad` blocks `domain` when the two are equal or `domain` is a subdomain of `bad`. */
  predicate Blocks(bad: string, domain: string) {
    domain == bad || EndsWith(domain, "." + bad)
  }

  /** Lines 109-113: the search through the block list, answering at the first entry that
      blocks. */
  function MatchesAny(domain: string, block: seq<string>): (r: bool)
    ensures r <==> exists bad :: bad in block && Blocks(bad, domain)
  {
    if block == [] then false
    else
      var rest := MatchesAny(domain, block[1..]);
      assert forall bad :: bad in block <==> bad == block[0] || bad in block[1..];
      Blocks(block[0], domain) || rest
  }

  /** Lines 101-104: one entry per comma-separated piece, trimmed and lower-cased, with empty
      pieces dropped. */
  function ExtraEntries(pieces: seq<string>): (r: seq<string>)
    ensures forall e :: e in r <==> e != [] && e in Normalized(pieces)
  {
    NonEmpty(Normalized(pieces))
  }

  function Normalized(pieces: seq<string>): (r: seq<string>)
    ensures |r| == |pieces| && forall i :: 0 <= i < |pieces| ==> r[i] == Normalize(pieces[i])
  {
    seq(|pieces|, i requires 0 <= i < |pieces| => Normalize(pieces[i]))
  }

  /** `.filter(Boolean)` on strings: the non-empty ones, in order. */
  function NonEmpty(xs: seq<string>): (r: seq<string>)
    ensures forall e :: e in r <==> e != [] && e in xs
    ensures |r| <= |xs|
  {
    if xs == [] then []
    else
      var rest := NonEmpty(xs[1..]);
      assert forall e :: e in xs <==> e == xs[0] || e in xs[1..];
      if xs[0] == [] then rest else [xs[0]] + rest
  }

  /** Lines 101-106: the built-in entries and the extras read from `DISPOSABLE_EXTRA` (`extra`;
      unset and empty behave alike). */
  function BlockList(extra: Option<string>): seq<string> {
    BaseDisposable + ExtraEntries(Split(extra.GetOr(""), ','))
  }

  /** Lines 109-113, on an extracted domain. */
  function BlockedDomain(domain: string, extra: Option<string>): (r: bool)
    ensures r <==> exists bad :: bad in BlockList(extra) && Blocks(bad, domain)
  {
    MatchesAny(domain, BlockList(extra))
  }

  /** `isDisposableDomain`: an input with no usable domain is never disposable; otherwise its
      domain is looked up in the block list. */
  function IsDisposableDomain(input: string, extra: Option<string>): (r: bool)
    ensures ExtractDomain(input).None? || ExtractDomain(input) == Some([]) ==> !r
    ensures r <==>
      && ExtractDomain(input).Some? && ExtractDomain(input).value != []
      && exists bad :: bad in BlockList(extra) && Blocks(bad, ExtractDomain(input).value)
  {
    match ExtractDomain(input)
    case None => false
    case Some(d) => d != [] && BlockedDomain(d, extra)
  }

  /** Subdomains of a blocked entry are blocked, at any depth. */
  lemma SubdomainBlocked(sub: string, bad: string, block: seq<string>)
    requires bad in block
    ensures MatchesAny(bad, block)
    ensures MatchesAny(sub + "." + bad, block)
  {
    BlocksSubdomain(sub, bad);
  }

  lemma BlocksSubdomain(sub: string, bad: string)
    ensures Blocks(bad, bad) && Blocks(bad, sub + "." + bad)
  {
    var d := sub + "." + bad;
    assert d[|d| - |"." + bad|..] == "." + bad;
  }

  /** A suffix match needs the dot: a longer name that merely ends with an entry is not blocked by
      it. */
  lemma BlocksNeedsDot(bad: string, prefix: string)
    requires prefix != [] && prefix[|prefix| - 1] != '.'
    ensures !Blocks(bad, prefix + bad)
  {
    var d := prefix + bad;
    assert d[|prefix| - 1] != '.';
    assert |"." + bad| <= |d| ==> d[|d| - |"." + bad|..][0] == d[|prefix| - 1];
  }

  /** An entry of `DISPOSABLE_EXTRA`, once trimmed and lower-cased, blocks its domain. */
  lemma ExtraEntryBlocks(raw: string, piece: string, input: string)
    requires piece in Split(raw, ',') && Normalize(piece) != []
    requires ExtractDomain(input) == Some(Normalize(piece))
    ensures IsDisposableDomain(input, Some(raw))
  {
    var pieces := Split(raw, ',');
    var e := Normalize(piece);
    var i :| 0 <= i < |pieces| && pieces[i] == piece;
    assert Normalized(pieces)[i] == e;
    assert e in ExtraEntries(pieces);
    assert e in BlockList(Some(raw));
    assert Blocks(e, e);
  }

  /** Without `DISPOSABLE_EXTRA` the block list is the built-in one. */
  lemma NoExtras()
    ensures BlockList(None) == BaseDisposable
    ensures BlockList(Some("")) == BaseDisposable
  {
    EmptyExtra();
    AppendNothing(BaseDisposable, ExtraEntries(Split("", ',')));
  }

  /** An empty `DISPOSABLE_EXTRA` yields no entries. */
  lemma EmptyExtra()
    ensures ExtraEntries(Split("", ',')) == []
  {
    assert Split("", ',') == [""];
    assert Normalize("") == [];
    assert NonEmpty([""]) == [];
  }

  lemma AppendNothing(xs: seq<string>, ys: seq<string>)
    requires ys == []
    ensures xs + ys == xs
  {
  }

  /** An entry of the list is blocked exactly and by subdomain, at any depth. */
  lemma ListedBlocked(bad: string, sub: string, extra: Option<string>)
    requires bad in BlockList(extra)
    ensures BlockedDomain(bad, extra)
    ensures BlockedDomain(sub + "." + bad, extra)
  {
    SubdomainBlocked(sub, bad, BlockList(extra));
  }

  /** `mailinator.com` is on the list whatever `DISPOSABLE_EXTRA` holds. */
  lemma MailinatorListed(extra: Option<string>)
    ensures "mailinator.com" in BlockList(extra)
  {
    var base := BaseDisposable;
    assert |base| > 0 && base[0] == "mailinator.com";
    FirstOfConcat(base, ExtraEntries(Split(extra.GetOr(""), ',')));
  }

  lemma FirstOfConcat(xs: seq<string>, ys: seq<string>)
    requires |xs| > 0
    ensures xs[0] in xs + ys
  {
    assert (xs + ys)[0] == xs[0];
  }

  /** In a name with a single dot, only the name itself and the text after the dot can block
      it. */
  lemma SingleDotBlockers(d: string, k: nat)
    requires k < |d| && d[k] == '.'
    requires forall j :: 0 <= j < |d| && j != k ==> d[j] != '.'
    ensures forall bad :: Blocks(bad, d) ==> bad == d || bad == d[k + 1..]
  {
    forall bad | Blocks(bad, d) && bad != d
      ensures bad == d[k + 1..]
    {
      var n := |d| - |bad| - 1;
      assert d[n..][0] == '.';
      assert d[n + 1..] == bad;
    }
  }

  /** A list holding none of the names that could block `d` does not block it. */
  lemma NoBlockerListed(d: string, block: seq<string>, k: nat)
    requires k < |d| && d[k] == '.'
    requires forall j :: 0 <= j < |d| && j != k ==> d[j] != '.'
    requires d !in block && d[k + 1..] !in block
    ensures !MatchesAny(d, block)
  {
    SingleDotBlockers(d, k);
  }

  /** A name that merely ends with an entry is not blocked. */
  lemma NotMailinatorIsNotBlocked()
    ensures !BlockedDomain("notmailinator.com", None)
  {
    NoExtras();
    var d := "notmailinator.com";
    assert d[14..] == "com";
    ComNotListed();
    NameNotListed();
    NoBlockerListed(d, BaseDisposable, 13);
  }

  lemma ComNotListed()
    ensures "com" !in BaseDisposable
  {
  }

  lemma NameNotListed()
    ensures "notmailinator.com" !in BaseDisposable
  {
  }
}
