/**
 * The few pieces of JavaScript's string library that the form scripts rely on:
 * the `\s` whitespace class (also what `String.prototype.trim` and `jQuery.trim`
 * strip), `trim`, `split` on one character, `substring`, substring search, and
 * the string-to-number coercion that a relational comparison such as
 * `year < 1947` applies to a field value.
 */
module JsText {

  /** A value that may be absent: `null` or `undefined` in the scripts. */
  datatype Option<T> = None | Some(value: T)

  /** The characters of JavaScript's `\s` class: WhiteSpace and LineTerminator. */
  predicate IsJsSpace(c: char) {
    || c == ' ' || c == '\t' || c == '\n' || c == '\U{000B}' || c == '\U{000C}' || c == '\r'
    || c == '\U{00A0}' || c == '\U{1680}' || ('\U{2000}' <= c <= '\U{200A}')
    || c == '\U{2028}' || c == '\U{2029}' || c == '\U{202F}' || c == '\U{205F}'
    || c == '\U{3000}' || c == '\U{FEFF}'
  }

  /** A JavaScript line terminator: the characters `.` in a regular expression does not match. */
  predicate IsLineTerminator(c: char) {
    c == '\n' || c == '\r' || c == '\U{2028}' || c == '\U{2029}'
  }

  /** Every character is whitespace (the empty string included). */
  predicate IsBlank(s: string) {
    forall i :: 0 <= i < |s| ==> IsJsSpace(s[i])
  }

  function TrimStart(s: string): string
  {
    if s != [] && IsJsSpace(s[0]) then TrimStart(s[1..]) else s
  }

  function TrimEnd(s: string): string
  {
    if s != [] && IsJsSpace(s[|s| - 1]) then TrimEnd(s[..|s| - 1]) else s
  }

  /** `String.prototype.trim` / `jQuery.trim`: strip leading and trailing whitespace. */
  function Trim(s: string): string
  {
    TrimEnd(TrimStart(s))
  }

  /** The trimmed string is a slice of the input obtained by dropping only
      whitespace, and it neither starts nor ends with whitespace. */
  lemma TrimStartShape(s: string)
    ensures exists k :: 0 <= k <= |s| && TrimStart(s) == s[k..] && IsBlank(s[..k])
    ensures TrimStart(s) != [] ==> !IsJsSpace(TrimStart(s)[0])
  {
    TrimStartSlice(s);
    TrimStartHead(s);
  }

  lemma {:induction false} TrimStartSlice(s: string)
    ensures exists k :: 0 <= k <= |s| && TrimStart(s) == s[k..] && IsBlank(s[..k])
    decreases |s|
  {
    if s != [] && IsJsSpace(s[0]) {
      TrimStartSlice(s[1..]);
      var k :| 0 <= k <= |s[1..]| && TrimStart(s[1..]) == s[1..][k..] && IsBlank(s[1..][..k]);
      assert s[1..][k..] == s[k + 1..];
      assert s[..k + 1] == [s[0]] + s[1..][..k];
      BlankCons(s[0], s[1..][..k]);
      assert TrimStart(s) == s[k + 1..] && IsBlank(s[..k + 1]);
    } else {
      assert TrimStart(s) == s[0..];
    }
  }

  lemma {:induction false} TrimStartHead(s: string)
    ensures TrimStart(s) != [] ==> !IsJsSpace(TrimStart(s)[0])
    decreases |s|
  {
    if s != [] && IsJsSpace(s[0]) {
      TrimStartHead(s[1..]);
    }
  }

  lemma TrimEndShape(s: string)
    ensures exists k :: 0 <= k <= |s| && TrimEnd(s) == s[..k] && IsBlank(s[k..])
    ensures TrimEnd(s) != [] ==> !IsJsSpace(TrimEnd(s)[|TrimEnd(s)| - 1])
  {
    TrimEndSlice(s);
    TrimEndLast(s);
  }

  lemma {:induction false} TrimEndSlice(s: string)
    ensures exists k :: 0 <= k <= |s| && TrimEnd(s) == s[..k] && IsBlank(s[k..])
    decreases |s|
  {
    if s != [] && IsJsSpace(s[|s| - 1]) {
      var t := s[..|s| - 1];
      TrimEndSlice(t);
      var k :| 0 <= k <= |t| && TrimEnd(t) == t[..k] && IsBlank(t[k..]);
      assert t[..k] == s[..k];
      assert s[k..] == t[k..] + [s[|s| - 1]];
      BlankSnoc(t[k..], s[|s| - 1]);
      assert TrimEnd(s) == s[..k] && IsBlank(s[k..]);
    } else {
      assert TrimEnd(s) == s[..|s|];
    }
  }

  lemma {:induction false} TrimEndLast(s: string)
    ensures TrimEnd(s) != [] ==> !IsJsSpace(TrimEnd(s)[|TrimEnd(s)| - 1])
    decreases |s|
  {
    if s != [] && IsJsSpace(s[|s| - 1]) {
      TrimEndLast(s[..|s| - 1]);
    }
  }

  lemma BlankCons(c: char, u: string)
    requires IsJsSpace(c) && IsBlank(u)
    ensures IsBlank([c] + u)
  {
    assert forall i :: 0 < i <= |u| ==> ([c] + u)[i] == u[i - 1];
  }

  lemma BlankSnoc(u: string, c: char)
    requires IsBlank(u) && IsJsSpace(c)
    ensures IsBlank(u + [c])
  {
    assert forall i :: 0 <= i < |u| ==> (u + [c])[i] == u[i];
  }

  /** Leading whitespace makes no difference to the trimmed value. */
  lemma {:induction false} TrimStartBlankPrefix(w: string, e: string)
    requires IsBlank(w)
    ensures TrimStart(w + e) == TrimStart(e)
    decreases |w|
  {
    if w != [] {
      assert (w + e)[0] == w[0] && (w + e)[1..] == w[1..] + e;
      TrimStartBlankPrefix(w[1..], e);
    } else {
      assert w + e == e;
    }
  }

  lemma TrimBlankPrefix(w: string, e: string)
    requires IsBlank(w)
    ensures Trim(w + e) == Trim(e)
  {
    TrimStartBlankPrefix(w, e);
  }

  /** A value trims to the empty string exactly when it is all whitespace. */
  lemma TrimEmptyIffBlank(s: string)
    ensures Trim(s) == [] <==> IsBlank(s)
  {
    TrimStartShape(s);
    var k :| 0 <= k <= |s| && TrimStart(s) == s[k..] && IsBlank(s[..k]);
    var t := s[k..];
    TrimEndShape(t);
    var j :| 0 <= j <= |t| && TrimEnd(t) == t[..j] && IsBlank(t[j..]);
    if Trim(s) == [] {
      assert j == 0 && t[j..] == t;
      // t is blank and does not start with whitespace, so it is empty
      assert |t| == 0;
      assert s[..k] == s;
    } else {
      assert !IsJsSpace(Trim(s)[0]);
      assert Trim(s)[0] == s[k];
    }
  }

  /** A string without whitespace at either end is its own trim. */
  lemma TrimTidy(s: string)
    requires s != [] ==> !IsJsSpace(s[0]) && !IsJsSpace(s[|s| - 1])
    ensures Trim(s) == s
  {
  }

  /** `s.split(sep)` for a one-character separator: the maximal pieces between
      separators, in order; the empty string splits into one empty piece. */
  function Split(s: string, sep: char): (parts: seq<string>)
    ensures |parts| >= 1
  {
    if s == [] then [[]]
    else
      var rest := Split(s[1..], sep);
      if s[0] == sep then [[]] + rest else [[s[0]] + rest[0]] + rest[1..]
  }

  /** No piece of a split holds the separator. */
  lemma {:induction false} SplitPiecesClean(s: string, sep: char)
    ensures forall k :: 0 <= k < |Split(s, sep)| ==> sep !in Split(s, sep)[k]
    decreases |s|
  {
    if s != [] {
      SplitPiecesClean(s[1..], sep);
    }
  }

  /** Splitting a string with no separator gives the string back as the only piece. */
  lemma {:induction false} SplitNoSep(s: string, sep: char)
    requires sep !in s
    ensures Split(s, sep) == [s]
    decreases |s|
  {
    if s != [] {
      assert sep !in s[1..];
      SplitNoSep(s[1..], sep);
      assert [s[0]] + s[1..] == s;
    }
  }

  /** Splitting at a separator splits the two sides independently. */
  lemma {:induction false} SplitAppend(a: string, sep: char, b: string)
    requires sep !in a
    ensures Split(a + [sep] + b, sep) == [a] + Split(b, sep)
    decreases |a|
  {
    if a == [] {
      assert a + [sep] + b == [sep] + b;
      assert ([sep] + b)[1..] == b;
    } else {
      var s := a + [sep] + b;
      assert s[0] == a[0] && s[1..] == a[1..] + [sep] + b;
      assert sep !in a[1..];
      SplitAppend(a[1..], sep, b);
      assert [a[0]] + a[1..] == a;
    }
  }

  /** JavaScript `s.substring(from, to)`: both ends are clamped to the string and
      swapped when reversed. */
  function Substring(s: string, from: nat, to: nat): string
  {
    var lo := if from <= |s| then from else |s|;
    var hi := if to <= |s| then to else |s|;
    if lo <= hi then s[lo..hi] else s[hi..lo]
  }

  /** The test `s.substring(0, p.length) === p` holds exactly when `p` is a prefix of `s`. */
  lemma SubstringPrefixTest(s: string, p: string)
    ensures Substring(s, 0, |p|) == p <==> |p| <= |s| && s[..|p|] == p
  {
  }

  /** The regular expression test `s.match(sub)` for a pattern `sub + ".*"` with no
      anchors: holds when `sub` occurs anywhere in `s`. */
  predicate Contains(s: string, sub: string) {
    exists i | 0 <= i <= |s| - |sub| :: OccursAt(s, sub, i)
  }

  predicate OccursAt(s: string, sub: string, i: nat) {
    i + |sub| <= |s| && s[i..i + |sub|] == sub
  }

  predicate IsDigit(c: char) {
    '0' <= c <= '9'
  }

  predicate AllDigits(s: string) {
    forall i :: 0 <= i < |s| ==> IsDigit(s[i])
  }

  function DigitChar(d: nat): (c: char)
    requires d < 10
    ensures IsDigit(c)
  {
    ('0' as int + d) as char
  }

  /** The decimal rendering of a natural number, without leading zeros. */
  function Decimal(n: nat): string
    decreases n
  {
    if n < 10 then [DigitChar(n)] else Decimal(n / 10) + [DigitChar(n % 10)]
  }

  /** The value of a string of ASCII digits. */
  function DigitsValue(s: string): nat
    requires AllDigits(s)
  {
    if s == [] then 0
    else DigitsValue(s[..|s| - 1]) * 10 + (s[|s| - 1] as int - '0' as int)
  }

  lemma {:induction false} DecimalDigits(n: nat)
    ensures Decimal(n) != [] && AllDigits(Decimal(n))
    decreases n
  {
    if n >= 10 {
      DecimalDigits(n / 10);
    }
  }

  /** A decimal rendering starts with a digit, so it is never blank. */
  lemma DecimalNotBlank(n: nat)
    ensures !IsBlank(Decimal(n))
  {
    DecimalDigits(n);
    assert IsDigit(Decimal(n)[0]);
  }

  /** Reading a decimal rendering back gives the number. */
  lemma {:induction false} DecimalValue(n: nat)
    ensures AllDigits(Decimal(n)) && DigitsValue(Decimal(n)) == n
    decreases n
  {
    DecimalDigits(n);
    if n >= 10 {
      DecimalValue(n / 10);
      var s := Decimal(n);
      assert s[..|s| - 1] == Decimal(n / 10);
    }
  }

  /** The outcome of JavaScript's coercion of a string to a number. */
  datatype JsNumber = Num(value: nat) | NaN

  /** The coercion rule of this model: whitespace is trimmed, the empty string is
      0, a string of ASCII digits is its decimal value, anything else is NaN. */
  function ToNumber(s: string): JsNumber
  {
    var t := Trim(s);
    if t == [] then Num(0) else if AllDigits(t) then Num(DigitsValue(t)) else NaN
  }

  /** `v < lo || v > hi` on a string value: NaN compares false both ways. */
  predicate OutOfRange(s: string, lo: int, hi: int) {
    match ToNumber(s)
    case NaN => false
    case Num(n) => n < lo || n > hi
  }

  /** A decimal rendering coerces to its own value. */
  lemma ToNumberDecimal(n: nat)
    ensures ToNumber(Decimal(n)) == Num(n)
  {
    DecimalValue(n);
    var s := Decimal(n);
    assert !IsJsSpace(s[0]) && !IsJsSpace(s[|s| - 1]);
    TrimTidy(s);
  }

  /** A blank value coerces to 0, so every range that excludes 0 rejects it. */
  lemma BlankIsOutOfRange(s: string, lo: int, hi: int)
    requires IsBlank(s) && 0 < lo
    ensures OutOfRange(s, lo, hi)
  {
    TrimEmptyIffBlank(s);
  }
}
