/**
 * `getCookie(name)`, which social/trigger.js and social/uploadVerify.js define
 * identically: it reads `document.cookie`, a `name=value; name=value` string
 * (the Cookie header format of section 4.2.1 of RFC 6265), splits it at `;`,
 * trims each entry and returns the decoded remainder of the first entry that
 * starts with `name=`, or `null`. `decodeURIComponent` is a parameter.
 */
module Cookies {
  import opened JsText

  /** `cookie.substring(0, name.length + 1) === (name + '=')` */
  predicate Matches(entry: string, name: string) {
    Substring(entry, 0, |name| + 1) == name + "="
  }

  function Entries(cookie: string): seq<string> {
    Split(cookie, ';')
  }

  /** The index of the first entry from `i` on whose trimmed form matches. */
  function FirstMatch(entries: seq<string>, name: string, i: nat): (r: Option<nat>)
    requires i <= |entries|
    ensures r == None <==> forall k :: i <= k < |entries| ==> !Matches(Trim(entries[k]), name)
    ensures r.Some? ==> && i <= r.value < |entries|
                        && Matches(Trim(entries[r.value]), name)
                        && forall k :: i <= k < r.value ==> !Matches(Trim(entries[k]), name)
    decreases |entries| - i
  {
    if i == |entries| then None
    else if Matches(Trim(entries[i]), name) then Some(i)
    else FirstMatch(entries, name, i + 1)
  }

  /** The value `getCookie` returns for this cookie string. */
  function Lookup(cookie: string, name: string, decode: string -> string): Option<string> {
    if cookie == [] then None
    else
      var entries := Entries(cookie);
      match FirstMatch(entries, name, 0)
      case None => None
      case Some(k) =>
        var entry := Trim(entries[k]);
        Some(decode(Substring(entry, |name| + 1, |entry|)))
  }

  /** The index loop of `getCookie`, with its early `break`. */
  method GetCookie(cookie: string, name: string, decode: string -> string) returns (cookieValue: Option<string>)
    ensures cookieValue == Lookup(cookie, name, decode)
  {
    cookieValue := None;
    if cookie != [] {
      var cookies := Split(cookie, ';');
      var i := 0;
      while i < |cookies|
        invariant 0 <= i <= |cookies|
        invariant cookieValue == None
        invariant FirstMatch(cookies, name, 0) == FirstMatch(cookies, name, i)
      {
        var entry := Trim(cookies[i]);
        if Substring(entry, 0, |name| + 1) == name + "=" {
          cookieValue := Some(decode(Substring(entry, |name| + 1, |entry|)));
          break;
        }
        i := i + 1;
      }
    }
  }

  /** An empty cookie string gives `null`. */
  lemma EmptyCookieIsNull(name: string, decode: string -> string)
    ensures Lookup("", name, decode) == None
  {
  }

  /** The result is `null` exactly when the string is empty or no entry matches. */
  lemma NullIffNoMatch(cookie: string, name: string, decode: string -> string)
    ensures var entries := Entries(cookie);
      var none := cookie == [] || forall k :: 0 <= k < |entries| ==> !Matches(Trim(entries[k]), name);
      Lookup(cookie, name, decode) == None <==> none
  {
  }

  /** Otherwise it is the decoded text after `name=` of the first matching
      entry; later entries, with the same name or not, play no part. */
  lemma FirstMatchWins(cookie: string, name: string, decode: string -> string, k: nat)
    requires cookie != []
    requires k < |Entries(cookie)| && Matches(Trim(Entries(cookie)[k]), name)
    requires forall j :: 0 <= j < k ==> !Matches(Trim(Entries(cookie)[j]), name)
    ensures var entry := Trim(Entries(cookie)[k]);
      |name| + 1 <= |entry| && Lookup(cookie, name, decode) == Some(decode(entry[|name| + 1..]))
  {
    var entry := Trim(Entries(cookie)[k]);
    var r := FirstMatch(Entries(cookie), name, 0);
    assert r == Some(k);
    SubstringPrefixTest(entry, name + "=");
    assert Substring(entry, |name| + 1, |entry|) == entry[|name| + 1..];
  }

  /** A first entry that matches decides the result whatever follows it. */
  lemma LeadingEntryDecides(e: string, rest: string, name: string, decode: string -> string)
    requires ';' !in e && Matches(Trim(e), name)
    ensures Lookup(e + ";" + rest, name, decode) == Some(decode(Trim(e)[|name| + 1..]))
  {
    SplitAppend(e, ';', rest);
    assert e + ";" + rest == e + [';'] + rest;
    FirstMatchWins(e + ";" + rest, name, decode, 0);
  }

  /** An entry whose name only extends `name` does not match: the `=` is part of
      the tested prefix. */
  lemma ExtendedNameDoesNotMatch(entry: string, name: string)
    requires |entry| > |name| && entry[..|name|] == name && entry[|name|] != '='
    ensures !Matches(entry, name)
  {
    SubstringPrefixTest(entry, name + "=");
  }

  /** Entries are trimmed before the test, so the spaces after a `;` do not
      prevent a match. */
  lemma LeadingSpaceIgnored(w: string, e: string, name: string)
    requires IsBlank(w)
    ensures Matches(Trim(w + e), name) == Matches(Trim(e), name)
  {
    TrimBlankPrefix(w, e);
  }

  /** A cookie string `name=value` alone gives the decoded value. */
  lemma SingleEntry(name: string, value: string, decode: string -> string)
    requires ';' !in name + value
    requires name != [] && !IsJsSpace(name[0])
    requires value != [] && !IsJsSpace(value[|value| - 1])
    ensures Lookup(name + "=" + value, name, decode) == Some(decode(value))
  {
    var c := name + "=" + value;
    assert ';' !in c by {
      assert forall i :: 0 <= i < |c| ==> c[i] == (if i < |name| then name[i] else if i == |name| then '=' else value[i - |name| - 1]);
    }
    SplitNoSep(c, ';');
    assert c[0] == name[0] && c[|c| - 1] == value[|value| - 1];
    TrimTidy(c);
    assert c[..|name| + 1] == name + "=" && c[|name| + 1..] == value;
    FirstMatchWins(c, name, decode, 0);
  }

  /** Of two entries, the second decides when the first does not match. */
  lemma SecondEntryDecides(e1: string, e2: string, name: string, decode: string -> string)
    requires ';' !in e1 && ';' !in e2
    requires !Matches(Trim(e1), name) && Matches(Trim(e2), name)
    ensures Lookup(e1 + ";" + e2, name, decode) == Some(decode(Trim(e2)[|name| + 1..]))
  {
    var c := e1 + ";" + e2;
    assert c == e1 + [';'] + e2;
    SplitAppend(e1, ';', e2);
    SplitNoSep(e2, ';');
    assert Entries(c) == [e1, e2];
    FirstMatchWins(c, name, decode, 1);
  }

  /** `CSRF-TokenX=1; CSRF-Token=2` gives the second value. */
  lemma CsrfExample(decode: string -> string)
    ensures Lookup("CSRF-TokenX=1; CSRF-Token=2", "CSRF-Token", decode) == Some(decode("2"))
  {
    var first, second := "CSRF-TokenX=1", " CSRF-Token=2";
    assert "CSRF-TokenX=1; CSRF-Token=2" == first + ";" + second;
    CsrfFirstEntry();
    CsrfSecondEntry();
    SecondEntryDecides(first, second, "CSRF-Token", decode);
  }

  /** `CSRF-TokenX=1` extends the name, so it does not match. */
  lemma CsrfFirstEntry()
    ensures ';' !in "CSRF-TokenX=1" && !Matches(Trim("CSRF-TokenX=1"), "CSRF-Token")
  {
    var name, first := "CSRF-Token", "CSRF-TokenX=1";
    TrimTidy(first);
    assert first[..|name|] == name;
    ExtendedNameDoesNotMatch(first, name);
  }

  /** ` CSRF-Token=2` matches once trimmed, with the value `2`. */
  lemma CsrfSecondEntry()
    ensures var name, second := "CSRF-Token", " CSRF-Token=2";
      && ';' !in second && Matches(Trim(second), name) && Trim(second)[|name| + 1..] == "2"
  {
    CsrfSecondTrim();
    CsrfSecondMatches();
  }

  lemma CsrfSecondTrim()
    ensures Trim(" CSRF-Token=2") == "CSRF-Token=2"
  {
    var entry := "CSRF-Token=2";
    assert " CSRF-Token=2" == " " + entry;
    TrimBlankPrefix(" ", entry);
    TrimTidy(entry);
  }

  lemma CsrfSecondMatches()
    ensures Matches("CSRF-Token=2", "CSRF-Token") && "CSRF-Token=2"[|"CSRF-Token"| + 1..] == "2"
  {
    var name, entry := "CSRF-Token", "CSRF-Token=2";
    assert entry[..|name| + 1] == name + "=";
    SubstringPrefixTest(entry, name + "=");
  }
}
