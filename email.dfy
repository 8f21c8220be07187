/** The syntactic email check `validate_email` of src/app.py: an ordered
    chain of early rejections over the whole string, the part before the
    single `@` and the part after it. No network or DNS lookup is involved.

    The two regular expressions of the source are expressed as character
    classes. Python's `$` also matches just before a final newline; the
    `Anchor` parameter of `CheckEmail` says which meaning of `$` is used. */
module EmailValidation {
  import opened Text

  /** Whitespace as `str.strip()` and `str.isspace()` see it. */
  predicate IsSpace(c: char) {
    || '\t' <= c <= '\r'
    || '\U{001C}' <= c <= ' '
    || c == '\U{0085}' || c == '\U{00A0}' || c == '\U{1680}'
    || '\U{2000}' <= c <= '\U{200A}'
    || c == '\U{2028}' || c == '\U{2029}' || c == '\U{202F}' || c == '\U{205F}' || c == '\U{3000}'
  }

  /** `[a-zA-Z]` */
  predicate Letter(c: char) {
    'a' <= c <= 'z' || 'A' <= c <= 'Z'
  }

  /** `[0-9]` */
  predicate Digit(c: char) {
    '0' <= c <= '9'
  }

  /** `[a-zA-Z0-9._%+-]`, the characters allowed in the local part. */
  predicate LocalChar(c: char) {
    Letter(c) || Digit(c) || c == '.' || c == '_' || c == '%' || c == '+' || c == '-'
  }

  /** `[a-zA-Z0-9.-]`, the characters allowed in the domain. */
  predicate DomainChar(c: char) {
    Letter(c) || Digit(c) || c == '.' || c == '-'
  }

  /** The characters of one domain label: a domain character other than `.`. */
  predicate LabelChar(c: char) {
    Letter(c) || Digit(c) || c == '-'
  }

  /** What `$` at the end of a pattern matches. */
  datatype Anchor =
    | EndOfString   // the end of the string only
    | PythonDollar  // the end of the string, or just before a newline that ends it

  /** `re.match('^' + p + '$', s)` for a pattern `p` whose own matches are
      the strings satisfying `matches`. */
  predicate Anchored(matches: string -> bool, s: string, dollar: Anchor) {
    || matches(s)
    || (dollar == PythonDollar && |s| > 0 && s[|s| - 1] == '\n' && matches(s[..|s| - 1]))
  }

  /** The strings `[a-zA-Z0-9._%+-]+` matches. */
  predicate LocalPattern(s: string) {
    |s| > 0 && All(s, LocalChar)
  }

  /** The strings `[a-zA-Z0-9.-]+\.[a-zA-Z]{2,}` matches: some dot has one or
      more domain characters before it and two or more letters after it. */
  predicate DomainPattern(s: string) {
    exists i | 0 < i && i + 3 <= |s| :: All(s[..i], DomainChar) && s[i] == '.' && All(s[i + 1..], Letter)
  }

  /** A label has no empty, leading-hyphen or trailing-hyphen problem. */
  predicate LabelEdgesOk(lab: string) {
    lab != [] && lab[0] != '-' && lab[|lab| - 1] != '-'
  }

  /** The local-part checks of `validate_email`, in the order the source
      applies them: not empty, no dot at either end, no `..`, and the
      local-part pattern. */
  predicate LocalPartPasses(local: string, dollar: Anchor) {
    && local != []
    && !AtEdge(local, '.')
    && !Doubled(local, '.')
    && Anchored(LocalPattern, local, dollar)
  }

  /** Every dot-separated piece of a domain is non-empty and has no hyphen at either end. */
  predicate LabelsPass(labels: seq<string>) {
    forall i | 0 <= i < |labels| :: LabelEdgesOk(labels[i])
  }

  /** The domain checks of `validate_email`, in the order the source applies
      them: not empty, contains a dot, no dot or hyphen at either end, no
      `..`, every label's edges, and the domain pattern. */
  predicate DomainPasses(domain: string, dollar: Anchor) {
    && domain != []
    && '.' in domain
    && !AtEdge(domain, '.')
    && !AtEdge(domain, '-')
    && !Doubled(domain, '.')
    && LabelsPass(Split(domain, '.'))
    && Anchored(DomainPattern, domain, dollar)
  }

  /** The chain of checks of `validate_email`, with `$` read as `dollar`. */
  function CheckEmail(email: string, dollar: Anchor): (ok: bool)
    ensures ok ==> email != [] && Count(email, '@') == 1
    ensures ok ==> Split(email, '@')[0] != [] && Split(email, '@')[1] != []
  {
    if email == [] || All(email, IsSpace) then false
    else if Count(email, '@') != 1 then false
    else
      var parts := Split(email, '@');
      LocalPartPasses(parts[0], dollar) && DomainPasses(parts[1], dollar)
  }

  /** `validate_email` with `$` meaning the end of the string, as the
      patterns are evidently meant. The registry uses this one. */
  function ValidateEmail(email: string): (ok: bool)
    ensures ok ==> CheckEmail(email, PythonDollar)
  {
    CheckEmail(email, EndOfString)
  }

  /** `validate_email` exactly as CPython runs it, `$` included. */
  function ValidateEmailAsWritten(email: string): (ok: bool)
    ensures '\n' !in email ==> (ok <==> ValidateEmail(email))
  {
    NewlineFreeReadingsAgree(email);
    CheckEmail(email, PythonDollar)
  }

  /** On a string without a newline the two readings of `$` agree. */
  lemma NewlineFreeReadingsAgree(s: string)
    ensures '\n' !in s ==> (CheckEmail(s, PythonDollar) <==> CheckEmail(s, EndOfString))
  {
    if '\n' !in s && s != [] && !All(s, IsSpace) && Count(s, '@') == 1 {
      SplitOmits(s, '@', '\n');
      var parts := Split(s, '@');
      assert '\n' !in parts[0] && '\n' !in parts[1];
      AnchorsAgree(LocalPattern, parts[0]);
      AnchorsAgree(DomainPattern, parts[1]);
    }
  }

  /** Without a final newline, the anchored match does not depend on the reading of `$`. */
  lemma AnchorsAgree(matches: string -> bool, s: string)
    requires '\n' !in s
    ensures Anchored(matches, s, PythonDollar) <==> Anchored(matches, s, EndOfString)
  {
    if |s| > 0 { assert s[|s| - 1] in s; }
  }

  // ---------------------------------------------------------------------
  // An independent description of the addresses the validator accepts.

  /** A local part: one or more of `[A-Za-z0-9._%+-]`, not starting or ending
      with a dot and with no two dots in a row. */
  predicate IsLocalPart(local: string) {
    && local != []
    && All(local, LocalChar)
    && local[0] != '.' && local[|local| - 1] != '.'
    && !Doubled(local, '.')
  }

  /** A domain label: one or more of `[A-Za-z0-9-]`, not starting or ending with `-`. */
  predicate IsLabel(lab: string) {
    lab != [] && All(lab, LabelChar) && lab[0] != '-' && lab[|lab| - 1] != '-'
  }

  /** A top-level domain: two or more ASCII letters. */
  predicate IsTld(lab: string) {
    |lab| >= 2 && All(lab, Letter)
  }

  /** The labels of a domain: at least two, each a label, the last one a top-level domain. */
  predicate IsDomainLabels(labels: seq<string>) {
    && |labels| >= 2
    && (forall i :: 0 <= i < |labels| ==> IsLabel(labels[i]))
    && IsTld(labels[|labels| - 1])
  }

  /** A domain, stated over its characters and its dot-separated labels. */
  predicate IsDomain(domain: string) {
    '.' in domain && All(domain, DomainChar) && IsDomainLabels(Split(domain, '.'))
  }

  /** `s` is a local part, an `@` and a dot-separated list of domain labels. */
  ghost predicate IsAddress(s: string) {
    exists local, labels :: IsLocalPart(local) && IsDomainLabels(labels) && s == local + ['@'] + Join(labels, '.')
  }

  // ---------------------------------------------------------------------
  // Soundness and completeness of the validator.

  /** Splitting at the only `@`. */
  lemma SplitAtSign(local: string, domain: string)
    requires '@' !in local && '@' !in domain
    ensures Split(local + ['@'] + domain, '@') == [local, domain]
    ensures Count(local + ['@'] + domain, '@') == 1
  {
    SplitPrefix(local, '@', domain);
    SplitNoSep(domain, '@');
  }

  /** The checks an accepted string has passed, read off the chain. */
  lemma AcceptedParts(s: string, dollar: Anchor)
    requires CheckEmail(s, dollar)
    ensures s != [] && !All(s, IsSpace) && Count(s, '@') == 1
    ensures LocalPartPasses(Split(s, '@')[0], dollar) && DomainPasses(Split(s, '@')[1], dollar)
  {
  }

  /** A string matching the domain pattern is domain text whose last label
      is a top-level domain. */
  lemma DomainPatternTld(d: string)
    requires DomainPattern(d)
    ensures All(d, DomainChar)
    ensures IsTld(Split(d, '.')[|Split(d, '.')| - 1])
  {
    var i :| 0 < i && i + 3 <= |d| && All(d[..i], DomainChar) && d[i] == '.' && All(d[i + 1..], Letter);
    DotTldText(d, i);
    TldAfterLastDot(d, i);
  }

  /** Two or more letters after the last dot make the last label a top-level domain. */
  lemma TldAfterLastDot(d: string, i: nat)
    requires i + 3 <= |d| && d[i] == '.' && All(d[i + 1..], Letter) && '.' !in d[i + 1..]
    ensures IsTld(Split(d, '.')[|Split(d, '.')| - 1])
  {
    SplitLast(d, '.', i);
  }

  /** Domain text, a dot at `i` and letters after it are domain text, and
      the letters hold no dot. */
  lemma DotTldText(d: string, i: nat)
    requires i < |d| && All(d[..i], DomainChar) && d[i] == '.' && All(d[i + 1..], Letter)
    ensures All(d, DomainChar) && '.' !in d[i + 1..]
  {
    var tld := d[i + 1..];
    forall k | 0 <= k < |d| ensures DomainChar(d[k]) {
      if k < i { assert d[k] == d[..i][k]; }
      else if k > i { assert d[k] == tld[k - i - 1]; }
    }
    assert '.' !in tld by {
      forall k | 0 <= k < |tld| ensures tld[k] != '.' { assert Letter(tld[k]); }
    }
  }

  /** The pieces of domain text between dots whose edges pass are labels. */
  lemma PiecesAreLabels(d: string)
    requires All(d, DomainChar)
    requires LabelsPass(Split(d, '.'))
    ensures forall j :: 0 <= j < |Split(d, '.')| ==> IsLabel(Split(d, '.')[j])
  {
    var labels := Split(d, '.');
    SplitJoin(d, '.');
    JoinAll(labels, '.', DomainChar);
    forall j | 0 <= j < |labels| ensures IsLabel(labels[j]) {
      assert LabelEdgesOk(labels[j]);
      assert All(labels[j], DomainChar) && '.' !in labels[j];
      forall k | 0 <= k < |labels[j]| ensures LabelChar(labels[j][k]) {
        assert DomainChar(labels[j][k]);
      }
    }
  }

  /** A domain that passes the domain checks is a domain. */
  lemma DomainFromChecks(domain: string)
    requires DomainPasses(domain, EndOfString)
    ensures IsDomain(domain)
  {
    assert DomainPattern(domain);
    DomainPatternTld(domain);
    LabelsFromChecks(domain);
  }

  /** The pieces between the dots of text matching the domain pattern,
      whose edges pass, are the labels of a domain. */
  lemma LabelsFromChecks(d: string)
    requires '.' in d && DomainPattern(d) && LabelsPass(Split(d, '.'))
    ensures IsDomainLabels(Split(d, '.'))
  {
    var labels := Split(d, '.');
    DomainPatternTld(d);
    PiecesAreLabels(d);
    assert |labels| >= 2 by { assert Count(d, '.') >= 1; }
    assert IsTld(labels[|labels| - 1]);
    assert forall i :: 0 <= i < |labels| ==> IsLabel(labels[i]);
    assert IsDomainLabels(labels);
  }

  /** What an accepted string looks like: one `@`, a local part before it and
      a domain after it. */
  lemma ValidateEmailSound(s: string)
    requires ValidateEmail(s)
    ensures Count(s, '@') == 1 && |Split(s, '@')| == 2
    ensures s == Split(s, '@')[0] + ['@'] + Split(s, '@')[1]
    ensures IsLocalPart(Split(s, '@')[0]) && IsDomain(Split(s, '@')[1])
  {
    AcceptedParts(s, EndOfString);
    var parts := Split(s, '@');
    SplitJoin(s, '@');
    assert parts[1..] == [parts[1]];
    DomainFromChecks(parts[1]);
  }

  /** Labels are domain text without dots, and so is their join. */
  lemma LabelsAreDomainText(labels: seq<string>)
    requires |labels| >= 1 && forall j :: 0 <= j < |labels| ==> IsLabel(labels[j])
    ensures forall j :: 0 <= j < |labels| ==> All(labels[j], DomainChar) && '.' !in labels[j]
    ensures All(Join(labels, '.'), DomainChar)
  {
    forall j | 0 <= j < |labels| ensures All(labels[j], DomainChar) && '.' !in labels[j] {
      assert IsLabel(labels[j]);
      forall k | 0 <= k < |labels[j]| ensures DomainChar(labels[j][k]) && labels[j][k] != '.' {
        assert LabelChar(labels[j][k]);
      }
    }
    JoinAll(labels, '.', DomainChar);
  }

  /** The join of the labels of a domain is not empty, contains a dot and
      neither starts nor ends with a dot or a hyphen. */
  lemma DomainOfLabelsEdges(labels: seq<string>)
    requires IsDomainLabels(labels)
    ensures Join(labels, '.') != [] && '.' in Join(labels, '.')
    ensures !AtEdge(Join(labels, '.'), '.') && !AtEdge(Join(labels, '.'), '-')
  {
    var n := |labels|;
    assert IsLabel(labels[0]) && IsLabel(labels[n - 1]);
    JoinEdges(labels, '.');
    assert LabelChar(labels[0][0]) && LabelChar(labels[n - 1][|labels[n - 1]| - 1]);
  }

  /** The join of the labels of a domain has no two dots in a row and splits
      back into the same labels. */
  lemma DomainOfLabelsSplit(labels: seq<string>)
    requires IsDomainLabels(labels)
    ensures !Doubled(Join(labels, '.'), '.')
    ensures Split(Join(labels, '.'), '.') == labels
  {
    LabelsAreDomainText(labels);
    JoinNotDoubled(labels, '.');
    JoinSplit(labels, '.');
  }

  /** The join of the labels of a domain matches the domain pattern, split at
      its last dot. */
  lemma DomainOfLabelsPattern(labels: seq<string>)
    requires IsDomainLabels(labels)
    ensures DomainPattern(Join(labels, '.'))
  {
    var n := |labels|;
    var init := labels[..n - 1];
    LabelsAreDomainText(init);
    JoinSnoc(labels, '.');
    assert init[0] == labels[0] && IsLabel(labels[0]);
    JoinNotEmpty(init, '.');
    PatternAtDot(Join(init, '.'), labels[n - 1]);
  }

  /** A join whose first part is not empty is not empty. */
  lemma JoinNotEmpty(parts: seq<string>, sep: char)
    requires |parts| >= 1 && parts[0] != []
    ensures Join(parts, sep) != []
  {
  }

  /** Domain text, a dot and a top-level domain match the domain pattern. */
  lemma PatternAtDot(a: string, tld: string)
    requires a != [] && All(a, DomainChar) && IsTld(tld)
    ensures DomainPattern(a + ['.'] + tld)
  {
    var d := a + ['.'] + tld;
    var i := |a|;
    assert d[..i] == a && d[i] == '.' && d[i + 1..] == tld;
  }

  /** Every local part followed by `@` and a dot-separated list of valid
      labels ending in a top-level domain is accepted. */
  lemma ValidateEmailComplete(local: string, labels: seq<string>)
    requires IsLocalPart(local) && IsDomainLabels(labels)
    ensures ValidateEmail(local + ['@'] + Join(labels, '.'))
  {
    var domain := Join(labels, '.');
    assert '@' !in local by {
      forall k | 0 <= k < |local| ensures local[k] != '@' { assert LocalChar(local[k]); }
    }
    LabelsAreDomainText(labels);
    assert '@' !in domain by {
      forall k | 0 <= k < |domain| ensures domain[k] != '@' { assert DomainChar(domain[k]); }
    }
    assert !IsSpace(local[0]) by { assert LocalChar(local[0]); }
    DomainOfLabelsPasses(labels);
    AcceptedFromParts(local + ['@'] + domain, local, domain, EndOfString);
  }

  /** The join of the labels of a domain passes the domain checks. */
  lemma DomainOfLabelsPasses(labels: seq<string>)
    requires IsDomainLabels(labels)
    ensures DomainPasses(Join(labels, '.'), EndOfString)
  {
    DomainOfLabelsEdges(labels);
    DomainOfLabelsSplit(labels);
    DomainOfLabelsPattern(labels);
  }

  /** A local part and a domain, neither holding an `@`, that pass their
      checks make a string that passes the whole chain. */
  lemma AcceptedFromParts(s: string, local: string, domain: string, dollar: Anchor)
    requires s == local + ['@'] + domain
    requires '@' !in local && '@' !in domain
    requires local != [] && !IsSpace(local[0])
    requires LocalPartPasses(local, dollar) && DomainPasses(domain, dollar)
    ensures CheckEmail(s, dollar)
  {
    assert s[0] == local[0];
    SplitAtSign(local, domain);
  }

  /** The validator accepts exactly the addresses. */
  lemma ValidateEmailCharacterized(s: string)
    ensures ValidateEmail(s) <==> IsAddress(s)
  {
    if ValidateEmail(s) {
      ValidateEmailSound(s);
      var parts := Split(s, '@');
      var labels := Split(parts[1], '.');
      SplitJoin(parts[1], '.');
      assert IsLocalPart(parts[0]) && IsDomainLabels(labels) && s == parts[0] + ['@'] + Join(labels, '.');
    }
    if IsAddress(s) {
      var local, labels :| IsLocalPart(local) && IsDomainLabels(labels) && s == local + ['@'] + Join(labels, '.');
      ValidateEmailComplete(local, labels);
    }
  }

  /** An accepted address ends with a letter, the last one of its top-level domain. */
  lemma ValidEmailEndsInLetter(s: string)
    requires ValidateEmail(s)
    ensures |s| > 0 && Letter(s[|s| - 1])
  {
    ValidateEmailSound(s);
    var parts := Split(s, '@');
    var domain := parts[1];
    var i :| 0 < i && i + 3 <= |domain| && All(domain[..i], DomainChar) && domain[i] == '.' && All(domain[i + 1..], Letter);
    assert domain[|domain| - 1] == domain[i + 1..][|domain| - i - 2];
    assert s[|s| - 1] == domain[|domain| - 1];
  }

  /** Code as written accepts everything the corrected validator accepts. */
  lemma AsWrittenAcceptsValid(s: string)
    requires ValidateEmail(s)
    ensures ValidateEmailAsWritten(s)
  {
    AcceptedParts(s, EndOfString);
  }

  /** Appending a newline to a domain that passes the domain checks leaves
      it passing them when `$` may match before that newline. */
  lemma NewlineKeepsDomainChecks(domain: string)
    requires DomainPasses(domain, EndOfString)
    ensures DomainPasses(domain + ['\n'], PythonDollar)
  {
    var d := domain + ['\n'];
    assert d[0] == domain[0] && d[|d| - 1] == '\n';
    assert '.' in d by { assert '.' in domain; }
    NewlineNotDoubled(domain);
    SplitAppend(domain, '.', '\n');
    LabelsPassExtended(Split(domain, '.'), '\n');
    assert d[..|d| - 1] == domain;
  }

  /** A newline appended to a string without `..` does not create one. */
  lemma NewlineNotDoubled(s: string)
    requires !Doubled(s, '.')
    ensures !Doubled(s + ['\n'], '.')
  {
    var d := s + ['\n'];
    forall k | 0 <= k < |d| - 1 ensures !(d[k] == '.' && d[k + 1] == '.') {
      if k + 1 < |s| {
        assert d[k] == s[k] && d[k + 1] == s[k + 1];
      }
    }
  }

  /** Appending a character other than a hyphen to the last label keeps
      every label's edges passing. */
  lemma LabelsPassExtended(labels: seq<string>, c: char)
    requires |labels| >= 1 && LabelsPass(labels) && c != '-'
    ensures LabelsPass(ExtendLast(labels, c))
  {
    var n := |labels|;
    var labels' := ExtendLast(labels, c);
    forall j | 0 <= j < n ensures LabelEdgesOk(labels'[j]) {
      if j < n - 1 {
        assert labels'[j] == labels[j] && LabelEdgesOk(labels[j]);
      } else {
        assert LabelEdgesOk(labels[n - 1]);
        assert labels'[j] == labels[n - 1] + [c];
      }
    }
  }

  /** Code as written: because `$` also matches before a final newline, every
      address the corrected validator accepts is still accepted with a
      newline appended, although a newline is neither a domain character nor
      a letter, and the corrected validator rejects it. */
  lemma AsWrittenAcceptsTrailingNewline(s: string)
    requires ValidateEmail(s)
    ensures ValidateEmailAsWritten(s + ['\n'])
    ensures !ValidateEmail(s + ['\n'])
  {
    ValidateEmailSound(s);
    AcceptedParts(s, EndOfString);
    AsWrittenAcceptsNewlineAfterParts(Split(s, '@')[0], Split(s, '@')[1]);
    ValidateEmailNoTrailingNewline(s);
  }

  /** The parts of an accepted address followed by a newline pass the chain
      as written. */
  lemma AsWrittenAcceptsNewlineAfterParts(local: string, domain: string)
    requires '@' !in local && '@' !in domain
    requires LocalPartPasses(local, EndOfString) && DomainPasses(domain, EndOfString)
    ensures ValidateEmailAsWritten(local + ['@'] + domain + ['\n'])
  {
    LocalChecksAsWritten(local);
    NewlineKeepsDomainChecks(domain);
    NewlineAfterDomain(local, domain);
    AcceptedFromParts(local + ['@'] + domain + ['\n'], local, domain + ['\n'], PythonDollar);
  }

  /** Appending to the whole string appends to its domain. */
  lemma NewlineAfterDomain(local: string, domain: string)
    ensures local + ['@'] + domain + ['\n'] == local + ['@'] + (domain + ['\n'])
    ensures '@' !in domain ==> '@' !in domain + ['\n']
  {
  }

  /** The local-part checks with `$` read as the end of the string imply
      them as written, and a passing local part starts with a local-part
      character. */
  lemma LocalChecksAsWritten(local: string)
    requires LocalPartPasses(local, EndOfString)
    ensures LocalPartPasses(local, PythonDollar) && LocalChar(local[0])
  {
  }

  /** The domain checks with `$` read as the end of the string imply them as written. */
  lemma DomainChecksAsWritten(domain: string)
    requires DomainPasses(domain, EndOfString)
    ensures DomainPasses(domain, PythonDollar)
  {
  }

  /** The corrected validator never accepts a string ending in a newline. */
  lemma ValidateEmailNoTrailingNewline(s: string)
    ensures !ValidateEmail(s + ['\n'])
  {
    var t := s + ['\n'];
    if ValidateEmail(t) {
      ValidEmailEndsInLetter(t);
    }
  }

  /** Code as written: the local-part pattern's `$` also matches before a
      newline that ends the local part, so a newline just before the `@` of an
      accepted address goes through, and the corrected validator rejects it. */
  lemma AsWrittenAcceptsNewlineBeforeAt(local: string, domain: string)
    requires ValidateEmail(local + ['@'] + domain)
    ensures ValidateEmailAsWritten(local + ['\n'] + ['@'] + domain)
    ensures !ValidateEmail(local + ['\n'] + ['@'] + domain)
  {
    var s := local + ['@'] + domain;
    AtSignFree(local, domain);
    SplitAtSign(local, domain);
    AcceptedParts(s, EndOfString);
    AsWrittenAcceptsNewlineBeforeAtParts(local, domain);
    ValidateEmailNoNewlineBeforeAt(local, domain);
  }

  /** The parts of an accepted address with a newline before the `@` pass
      the chain as written. */
  lemma AsWrittenAcceptsNewlineBeforeAtParts(local: string, domain: string)
    requires '@' !in local && '@' !in domain
    requires LocalPartPasses(local, EndOfString) && DomainPasses(domain, EndOfString)
    ensures ValidateEmailAsWritten(local + ['\n'] + ['@'] + domain)
  {
    NewlineKeepsLocalChecks(local);
    DomainChecksAsWritten(domain);
    AcceptedFromParts(local + ['\n'] + ['@'] + domain, local + ['\n'], domain, PythonDollar);
  }

  /** The corrected validator never accepts a local part ending in a newline. */
  lemma ValidateEmailNoNewlineBeforeAt(local: string, domain: string)
    ensures !ValidateEmail(local + ['\n'] + ['@'] + domain)
  {
    var local' := local + ['\n'];
    var t := local' + ['@'] + domain;
    if ValidateEmail(t) {
      ValidateEmailSound(t);
      AtSignFree(local', domain);
      SplitAtSign(local', domain);
    }
  }

  /** A string with exactly one `@` has none on either side of a given `@`. */
  lemma AtSignFree(local: string, domain: string)
    requires Count(local + ['@'] + domain, '@') == 1
    ensures '@' !in local && '@' !in domain
  {
    CountConcat(local + ['@'], domain, '@');
    CountConcat(local, ['@'], '@');
  }

  /** Appending a newline to a local part that passes the local-part checks
      leaves it passing them when `$` may match before that newline. */
  lemma NewlineKeepsLocalChecks(local: string)
    requires LocalPartPasses(local, EndOfString)
    ensures LocalPartPasses(local + ['\n'], PythonDollar)
    ensures '@' !in local ==> '@' !in local + ['\n']
    ensures !IsSpace((local + ['\n'])[0])
  {
    var l := local + ['\n'];
    assert l[0] == local[0] && l[|l| - 1] == '\n' && LocalChar(local[0]);
    NewlineNotDoubled(local);
    assert l[..|l| - 1] == local;
  }

  // ---------------------------------------------------------------------
  // The concrete verdicts the source's tests expect.

  /** A local part failing one of the local-part checks rejects the string. */
  lemma RejectedAtLocalPart(local: string, domain: string, dollar: Anchor)
    requires AtEdge(local, '.') || Doubled(local, '.') || !Anchored(LocalPattern, local, dollar)
    ensures !CheckEmail(local + ['@'] + domain, dollar)
  {
    if CheckEmail(local + ['@'] + domain, dollar) {
      AtSignFree(local, domain);
      SplitAtSign(local, domain);
    }
  }

  /** One `@` and a well-formed local part, but a domain without a dot. */
  lemma RejectedAtDomain(local: string, domain: string, dollar: Anchor)
    requires IsLocalPart(local) && '@' !in domain && '.' !in domain
    ensures !CheckEmail(local + ['@'] + domain, dollar)
  {
    assert '@' !in local by {
      forall k | 0 <= k < |local| ensures local[k] != '@' { assert LocalChar(local[k]); }
    }
    assert !IsSpace(local[0]) by { assert LocalChar(local[0]); }
    SplitAtSign(local, domain);
  }

  lemma RejectsNoAtSign(dollar: Anchor)
    ensures !CheckEmail("invalidemail", dollar)
  {
    assert '@' !in "invalidemail" && !IsSpace('i');
  }

  lemma RejectsNoDomain(dollar: Anchor)
    ensures !CheckEmail("invalid@", dollar)
  {
    RejectedAtDomain("invalid", "", dollar);
    assert "invalid@" == "invalid" + ['@'] + "";
  }

  lemma RejectsNoTld(dollar: Anchor)
    ensures !CheckEmail("invalid@domain", dollar)
  {
    RejectedAtDomain("invalid", "domain", dollar);
    assert "invalid@domain" == "invalid" + ['@'] + "domain";
  }

  lemma RejectsSpace(dollar: Anchor)
    ensures !CheckEmail("invalid email@domain.com", dollar)
  {
    assert !LocalChar("invalid email"[7]);
    RejectedAtLocalPart("invalid email", "domain.com", dollar);
    assert "invalid email@domain.com" == "invalid email" + ['@'] + "domain.com";
  }

  lemma RejectsConsecutiveDots(dollar: Anchor)
    ensures !CheckEmail("user..name@domain.com", dollar)
  {
    assert "user..name"[4] == '.' && "user..name"[5] == '.';
    RejectedAtLocalPart("user..name", "domain.com", dollar);
    assert "user..name@domain.com" == "user..name" + ['@'] + "domain.com";
  }

  lemma RejectsLeadingDot(dollar: Anchor)
    ensures !CheckEmail(".user@domain.com", dollar)
  {
    RejectedAtLocalPart(".user", "domain.com", dollar);
    assert ".user@domain.com" == ".user" + ['@'] + "domain.com";
  }

  lemma RejectsTrailingDot(dollar: Anchor)
    ensures !CheckEmail("user.@domain.com", dollar)
  {
    RejectedAtLocalPart("user.", "domain.com", dollar);
    assert "user.@domain.com" == "user." + ['@'] + "domain.com";
  }

  /** The malformed addresses the source's tests reject, under either reading of `$`. */
  lemma RejectsMalformedExamples(dollar: Anchor)
    ensures !CheckEmail("", dollar)
    ensures !CheckEmail("invalidemail", dollar)
    ensures !CheckEmail("invalid@", dollar)
    ensures !CheckEmail("invalid@domain", dollar)
    ensures !CheckEmail("invalid email@domain.com", dollar)
    ensures !CheckEmail("user..name@domain.com", dollar)
    ensures !CheckEmail(".user@domain.com", dollar)
    ensures !CheckEmail("user.@domain.com", dollar)
  {
    RejectsNoAtSign(dollar);
    RejectsNoDomain(dollar);
    RejectsNoTld(dollar);
    RejectsSpace(dollar);
    RejectsConsecutiveDots(dollar);
    RejectsLeadingDot(dollar);
    RejectsTrailingDot(dollar);
  }

  /** The labels of the school's domain, the domain of every address in the
      seed registry. */
  const SchoolLabels: seq<string> := ["mergington", "edu"]

  /** `local@mergington.edu` */
  function AtSchool(local: string): string {
    local + ['@'] + Join(SchoolLabels, '.')
  }

  /** The school's domain is two labels, the second a top-level domain. */
  lemma SchoolDomain()
    ensures IsDomainLabels(SchoolLabels)
  {
    assert IsLabel("mergington") by { assert All("mergington", LabelChar); }
    assert IsTld("edu") && IsLabel("edu");
  }

  /** `AtSchool` spells the address the way the seed registry does. */
  lemma AtSchoolSpelling(local: string)
    ensures AtSchool(local) == local + "@mergington.edu"
  {
    assert Join(SchoolLabels, '.') == "mergington.edu" by {
      assert SchoolLabels[1..] == ["edu"];
    }
  }

  /** An address written out as `local@mergington.edu` is `AtSchool(local)`. */
  lemma SchoolAddress(local: string, email: string)
    requires email == local + "@mergington.edu"
    ensures email == AtSchool(local)
  {
    AtSchoolSpelling(local);
  }

  /** Any local part at the school's domain is accepted. */
  lemma AcceptedAtSchool(local: string)
    requires IsLocalPart(local)
    ensures ValidateEmail(AtSchool(local)) && ValidateEmailAsWritten(AtSchool(local))
  {
    SchoolDomain();
    ValidateEmailComplete(local, SchoolLabels);
    AsWrittenAcceptsValid(AtSchool(local));
  }

  /** The address `local@mergington.edu`, written out, is accepted. */
  lemma SpelledAtSchool(local: string, email: string)
    requires IsLocalPart(local) && email == local + "@mergington.edu"
    ensures ValidateEmail(email) && ValidateEmailAsWritten(email)
  {
    AtSchoolSpelling(local);
    AcceptedAtSchool(local);
  }

  lemma AcceptsPlainName(email: string)
    requires email == "newuser@mergington.edu"
    ensures ValidateEmail(email) && ValidateEmailAsWritten(email)
  {
    SpelledAtSchool("newuser", email);
  }

  lemma AcceptsDottedName(email: string)
    requires email == "user.name@mergington.edu"
    ensures ValidateEmail(email) && ValidateEmailAsWritten(email)
  {
    SpelledAtSchool("user.name", email);
  }

  lemma AcceptsUnderscore(email: string)
    requires email == "user_name@mergington.edu"
    ensures ValidateEmail(email) && ValidateEmailAsWritten(email)
  {
    SpelledAtSchool("user_name", email);
  }

  lemma AcceptsDigits(email: string)
    requires email == "user123@mergington.edu"
    ensures ValidateEmail(email) && ValidateEmailAsWritten(email)
  {
    SpelledAtSchool("user123", email);
  }

  lemma AcceptsSingleLetter(email: string)
    requires email == "a@mergington.edu"
    ensures ValidateEmail(email) && ValidateEmailAsWritten(email)
  {
    SpelledAtSchool("a", email);
  }

  lemma AcceptsPlusTag(email: string)
    requires email == "user+tag@mergington.edu"
    ensures ValidateEmail(email) && ValidateEmailAsWritten(email)
  {
    SpelledAtSchool("user+tag", email);
  }

  /** A written-out school address with a newline appended: accepted by
      the code as written, rejected by the corrected validator. */
  lemma SpelledNewlineAfter(local: string, email: string)
    requires IsLocalPart(local) && email == local + "@mergington.edu\n"
    ensures ValidateEmailAsWritten(email) && !ValidateEmail(email)
  {
    AtSchoolSpelling(local);
    AcceptedAtSchool(local);
    AsWrittenAcceptsTrailingNewline(AtSchool(local));
    assert "@mergington.edu\n" == "@mergington.edu" + ['\n'];
    assert email == AtSchool(local) + ['\n'];
  }

  /** A written-out school address with a newline before its `@`: accepted
      by the code as written, rejected by the corrected validator. */
  lemma SpelledNewlineBeforeAt(local: string, email: string)
    requires IsLocalPart(local) && email == local + "\n@mergington.edu"
    ensures ValidateEmailAsWritten(email) && !ValidateEmail(email)
  {
    AcceptedAtSchool(local);
    AsWrittenAcceptsNewlineBeforeAt(local, Join(SchoolLabels, '.'));
    NewlineBeforeAtSpelling(local);
  }

  /** How a newline before the `@` of a school address is written out. */
  lemma NewlineBeforeAtSpelling(local: string)
    ensures local + "\n@mergington.edu" == local + ['\n'] + ['@'] + Join(SchoolLabels, '.')
  {
    assert Join(SchoolLabels, '.') == "mergington.edu" by { assert SchoolLabels[1..] == ["edu"]; }
    assert "\n@mergington.edu" == ['\n'] + ['@'] + "mergington.edu";
  }

  /** The address the registry's tests sign up most often, with a newline
      appended. */
  lemma AsWrittenAcceptsNewlineExample(email: string)
    requires email == "newuser@mergington.edu\n"
    ensures ValidateEmailAsWritten(email)
    ensures !ValidateEmail(email)
  {
    SpelledNewlineAfter("newuser", email);
  }

  /** The same address with a newline before its `@`. */
  lemma AsWrittenAcceptsNewlineBeforeAtExample(email: string)
    requires email == "newuser\n@mergington.edu"
    ensures ValidateEmailAsWritten(email)
    ensures !ValidateEmail(email)
  {
    SpelledNewlineBeforeAt("newuser", email);
  }
}
