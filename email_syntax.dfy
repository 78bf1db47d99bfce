/**
 * The email pattern shared by register.js, support.js and uploadVerify.js,
 *
 *   ^((atom(\.atom)*)|(".+"))@((\[d{1,3}\.d{1,3}\.d{1,3}\.d{1,3}])|(([a-zA-Z\-0-9]+\.)+[a-zA-Z]{2,}))$
 *
 * where an atom is a non-empty run of characters outside `<>()[]\.,;:@"` and
 * whitespace. It is a loose approximation of the addr-spec of section 3.4.1 of
 * RFC 5322; this module models the pattern, not the RFC. The pattern matches a
 * string when some `@` in it splits the string into a local part and a domain
 * that match their sub-patterns; no flags are set, so `$` is the end of input.
 */
module EmailSyntax {
  import opened JsText

  /** `[^<>()[\]\\.,;:\s@"]` */
  predicate IsAtomChar(c: char) {
    && c != '<' && c != '>' && c != '(' && c != ')' && c != '[' && c != ']'
    && c != '\\' && c != '.' && c != ',' && c != ';' && c != ':' && c != '@' && c != '"'
    && !IsJsSpace(c)
  }

  predicate IsAtom(s: string) {
    |s| > 0 && forall i :: 0 <= i < |s| ==> IsAtomChar(s[i])
  }

  /** `atom(\.atom)*`: every piece between dots is an atom. */
  predicate IsDotAtom(s: string) {
    var pieces := Split(s, '.');
    forall k :: 0 <= k < |pieces| ==> IsAtom(pieces[k])
  }

  /** `".+"`: any non-empty text, line terminators excepted, between double quotes. */
  predicate IsQuoted(s: string) {
    && |s| >= 3 && s[0] == '"' && s[|s| - 1] == '"'
    && forall i :: 1 <= i < |s| - 1 ==> !IsLineTerminator(s[i])
  }

  predicate IsLocalPart(s: string) {
    IsDotAtom(s) || IsQuoted(s)
  }

  /** `[0-9]{1,3}` */
  predicate IsOctetText(s: string) {
    1 <= |s| <= 3 && AllDigits(s)
  }

  /** `\[[0-9]{1,3}\.[0-9]{1,3}\.[0-9]{1,3}\.[0-9]{1,3}]` */
  predicate IsAddressLiteral(s: string) {
    && |s| >= 2 && s[0] == '[' && s[|s| - 1] == ']'
    && var pieces := Split(s[1..|s| - 1], '.');
    && |pieces| == 4
    && forall k :: 0 <= k < 4 ==> IsOctetText(pieces[k])
  }

  predicate IsAsciiLetter(c: char) {
    'a' <= c <= 'z' || 'A' <= c <= 'Z'
  }

  /** `[a-zA-Z\-0-9]+` */
  predicate IsLabel(s: string) {
    |s| > 0 && forall i :: 0 <= i < |s| ==> IsAsciiLetter(s[i]) || s[i] == '-' || IsDigit(s[i])
  }

  /** `[a-zA-Z]{2,}` */
  predicate IsTopLabel(s: string) {
    |s| >= 2 && forall i :: 0 <= i < |s| ==> IsAsciiLetter(s[i])
  }

  /** `([a-zA-Z\-0-9]+\.)+[a-zA-Z]{2,}`: at least one label, each followed by a dot,
      then a top label. */
  predicate IsHostName(s: string) {
    var pieces := Split(s, '.');
    && |pieces| >= 2
    && (forall k :: 0 <= k < |pieces| - 1 ==> IsLabel(pieces[k]))
    && IsTopLabel(pieces[|pieces| - 1])
  }

  predicate IsDomain(s: string) {
    IsAddressLiteral(s) || IsHostName(s)
  }

  /** The `@` at index i splits s into a local part and a domain. */
  predicate IsAtSplit(s: string, i: nat) {
    i < |s| && s[i] == '@' && IsLocalPart(s[..i]) && IsDomain(s[i + 1..])
  }

  /** `emailRegex.test(s)` */
  predicate IsEmail(s: string) {
    exists i | 0 <= i < |s| :: IsAtSplit(s, i)
  }

  /** The first piece of a split starts the string; the last one ends it. */
  lemma SplitFirstPiece(s: string, sep: char)
    requires s != []
    ensures s[0] == sep ==> Split(s, sep)[0] == []
    ensures s[0] != sep ==> Split(s, sep)[0] != [] && Split(s, sep)[0][0] == s[0]
  {
  }

  lemma {:induction false} SplitLastPiece(s: string, sep: char)
    requires s != []
    ensures var p := Split(s, sep); var last := p[|p| - 1];
      && (s[|s| - 1] == sep ==> last == [])
      && (s[|s| - 1] != sep ==> last != [] && last[|last| - 1] == s[|s| - 1])
    decreases |s|
  {
    if |s| > 1 {
      SplitLastPiece(s[1..], sep);
    }
  }

  /** A domain, of either form, never holds an `@`. */
  lemma DomainHasNoAt(d: string)
    requires IsDomain(d)
    ensures '@' !in d
  {
    if '@' in d {
      var i :| 0 <= i < |d| && d[i] == '@';
      if IsAddressLiteral(d) {
        var inner := d[1..|d| - 1];
        assert 0 < i < |d| - 1;
        AtLiesInSomePiece(inner, '.', i - 1);
      } else {
        AtLiesInSomePiece(d, '.', i);
      }
    }
  }

  /** A character other than the separator lies in some piece of the split. */
  lemma {:induction false} AtLiesInSomePiece(s: string, sep: char, i: nat)
    requires i < |s| && s[i] != sep
    ensures exists k :: 0 <= k < |Split(s, sep)| && s[i] in Split(s, sep)[k]
    decreases |s|
  {
    var rest := Split(s[1..], sep);
    if i == 0 {
      assert s[0] in Split(s, sep)[0];
    } else {
      AtLiesInSomePiece(s[1..], sep, i - 1);
      var k :| 0 <= k < |rest| && s[1..][i - 1] in rest[k];
      if s[0] == sep {
        assert Split(s, sep)[k + 1] == rest[k];
      } else if k == 0 {
        assert rest[0] <= Split(s, sep)[0][1..];
        assert s[i] in Split(s, sep)[0];
      } else {
        assert Split(s, sep)[k] == rest[k];
      }
    }
  }

  /** The pattern splits a matching string at exactly one `@`: the domain holds
      none, so the split is at the last `@` of the string. */
  lemma AtSplitUnique(s: string, i: nat, j: nat)
    requires IsAtSplit(s, i) && IsAtSplit(s, j)
    ensures i == j
  {
    DomainHasNoAt(s[i + 1..]);
    DomainHasNoAt(s[j + 1..]);
  }

  /** When a string holds a single `@`, it is an email exactly when the text before
      it is a local part and the text after it a domain. */
  lemma EmailAtOnlyAt(s: string, k: nat)
    requires k < |s| && s[k] == '@'
    requires forall j :: 0 <= j < |s| && j != k ==> s[j] != '@'
    ensures IsEmail(s) <==> IsLocalPart(s[..k]) && IsDomain(s[k + 1..])
  {
    if IsEmail(s) {
      var i :| 0 <= i < |s| && IsAtSplit(s, i);
      assert i == k;
    } else {
      assert !IsAtSplit(s, k);
    }
  }

  /** A matching string has no whitespace at either end, so a value with
      surrounding whitespace fails the untrimmed test even though its trimmed
      form may pass. */
  lemma EmailHasNoOuterSpace(s: string)
    requires IsEmail(s)
    ensures s != [] && !IsJsSpace(s[0]) && !IsJsSpace(s[|s| - 1])
    ensures Trim(s) == s
  {
    var i :| 0 <= i < |s| && IsAtSplit(s, i);
    var local, domain := s[..i], s[i + 1..];
    LocalPartStart(local);
    DomainEnd(domain);
    assert s[0] == local[0];
    assert s[|s| - 1] == domain[|domain| - 1];
    TrimTidy(s);
  }

  /** A local part starts with an atom character or a quote. */
  lemma LocalPartStart(local: string)
    requires IsLocalPart(local)
    ensures local != [] && !IsJsSpace(local[0])
  {
    if IsDotAtom(local) {
      DotAtomNonEmpty(local);
      SplitFirstPiece(local, '.');
      assert IsAtom(Split(local, '.')[0]);
    }
  }

  /** A domain ends with a letter or a closing bracket. */
  lemma DomainEnd(domain: string)
    requires IsDomain(domain)
    ensures domain != [] && !IsJsSpace(domain[|domain| - 1])
  {
    if IsHostName(domain) {
      var pieces := Split(domain, '.');
      SplitLastPiece(domain, '.');
      var top := pieces[|pieces| - 1];
      assert IsAsciiLetter(top[|top| - 1]);
    }
  }

  /** A dot-atom has at least one character: its first piece is an atom. */
  lemma DotAtomNonEmpty(s: string)
    requires IsDotAtom(s)
    ensures s != []
  {
    assert IsAtom(Split(s, '.')[0]);
  }

  /** The empty value is never an email. */
  lemma EmptyIsNotEmail()
    ensures !IsEmail("")
  {
  }

  /** A single atom is a dot-atom local part. */
  lemma AtomIsLocalPart(a: string)
    requires IsAtom(a)
    ensures IsLocalPart(a)
  {
    SplitNoSep(a, '.');
  }

  /** A label, a dot and a top label form a host name. */
  lemma TwoLabelHostName(first: string, top: string)
    requires IsLabel(first) && IsTopLabel(top)
    ensures IsDomain(first + "." + top)
  {
    SplitNoSep(top, '.');
    SplitAppend(first, '.', top);
    assert first + "." + top == first + ['.'] + top;
  }

  /** A domain that starts with a dot, or holds no dot and no bracket, is rejected. */
  lemma DomainNeedsLeadingLabel(d: string)
    requires d != [] && d[0] == '.'
    ensures !IsDomain(d)
  {
    SplitFirstPiece(d, '.');
  }

  lemma DomainNeedsDot(d: string)
    requires '.' !in d && (d != [] ==> d[0] != '[')
    ensures !IsDomain(d)
  {
    SplitNoSep(d, '.');
  }

  /** `user@example.com` matches. */
  lemma AcceptsPlainAddress()
    ensures IsEmail("user@example.com")
  {
    var s := "user@example.com";
    AtomIsLocalPart("user");
    TwoLabelHostName("example", "com");
    assert s[..4] == "user" && s[5..] == "example" + "." + "com";
    assert IsAtSplit(s, 4);
  }

  /** `user@.com` (empty label) and `user@com` (no dot in the domain) do not match. */
  lemma RejectsMalformedDomains()
    ensures !IsEmail("user@.com")
    ensures !IsEmail("user@com")
  {
    var s1 := "user@.com";
    assert s1[5..] == ".com";
    DomainNeedsLeadingLabel(".com");
    EmailAtOnlyAt(s1, 4);
    var s2 := "user@com";
    assert s2[5..] == "com";
    DomainNeedsDot("com");
    EmailAtOnlyAt(s2, 4);
  }
}
