/** The string primitives the core relies on: `includes`, `toLowerCase`,
    `trim`, `split('@')[0]` and `Number.prototype.toString`. */
module Text {

  // ---------------------------------------------------------------------------
  // Substring search (`String.prototype.includes`)
  // ---------------------------------------------------------------------------

  /** `key` occurs in `text` starting at position `i`. */
  ghost predicate OccursAt(text: string, key: string, i: int) {
    0 <= i && i + |key| <= |text| && text[i..i + |key|] == key
  }

  /** The specification of `includes`: some position holds `key`. */
  ghost predicate Occurs(text: string, key: string) {
    exists i :: OccursAt(text, key, i)
  }

  /** Dropping the first character of `text` keeps exactly the occurrences
      that do not start at position 0. */
  lemma {:induction false} OccursStep(text: string, key: string)
    requires |text| >= |key|
    requires !(key <= text)
    ensures Occurs(text, key) <==> Occurs(text[1..], key)
  {
    if Occurs(text, key) {
      var i :| OccursAt(text, key, i);
      assert i != 0;
      assert text[1..][i - 1..i - 1 + |key|] == text[i..i + |key|];
      assert OccursAt(text[1..], key, i - 1);
    }
    if Occurs(text[1..], key) {
      var i :| OccursAt(text[1..], key, i);
      assert text[1..][i..i + |key|] == text[i + 1..i + 1 + |key|];
      assert OccursAt(text, key, i + 1);
    }
  }

  /** Executable substring test; it decides exactly `Occurs`. */
  function Contains(text: string, key: string): (r: bool)
    ensures r <==> Occurs(text, key)
    decreases |text|
  {
    if |text| < |key| then
      assert forall i :: !OccursAt(text, key, i);
      false
    else if key <= text then
      assert OccursAt(text, key, 0);
      true
    else
      OccursStep(text, key);
      Contains(text[1..], key)
  }

  /** A text contains every one of its slices. */
  lemma ContainsSlice(text: string, i: nat, j: nat)
    requires i <= j <= |text|
    ensures Contains(text, text[i..j])
  {
    assert OccursAt(text, text[i..j], i);
  }

  // ---------------------------------------------------------------------------
  // Lower-casing (`String.prototype.toLowerCase`, ASCII letters only)
  // ---------------------------------------------------------------------------

  predicate IsUpper(c: char) {
    'A' <= c <= 'Z'
  }

  function LowerChar(c: char): (d: char)
    ensures !IsUpper(d)
    ensures IsUpper(c) ==> d as int == c as int + 32
    ensures !IsUpper(c) ==> d == c
  {
    if IsUpper(c) then (c as int + 32) as char else c
  }

  /** Lower-cases every ASCII capital and leaves every other character alone. */
  function Lower(s: string): (r: string)
    ensures |r| == |s|
    ensures forall i :: 0 <= i < |s| ==> r[i] == LowerChar(s[i])
    ensures forall i :: 0 <= i < |r| ==> !IsUpper(r[i])
  {
    seq(|s|, i requires 0 <= i < |s| => LowerChar(s[i]))
  }

  /** Lower-casing twice is lower-casing once. */
  lemma LowerIdempotent(s: string)
    ensures Lower(Lower(s)) == Lower(s)
  {
  }

  // ---------------------------------------------------------------------------
  // Trimming (`String.prototype.trim`)
  // ---------------------------------------------------------------------------

  /** The ECMAScript WhiteSpace and LineTerminator code points, which `trim`
      removes from both ends. */
  predicate IsSpace(c: char) {
    var n := c as int;
    n == 0x09 || n == 0x0A || n == 0x0B || n == 0x0C || n == 0x0D || n == 0x20
    || n == 0xA0 || n == 0x1680 || (0x2000 <= n <= 0x200A)
    || n == 0x2028 || n == 0x2029 || n == 0x202F || n == 0x205F
    || n == 0x3000 || n == 0xFEFF
  }

  /** `s` with its leading white space removed: a suffix of `s` that does
      not start with white space and that only white space precedes. */
  function TrimStart(s: string): (r: string)
    ensures |r| <= |s| && r == s[|s| - |r|..]
    ensures forall k :: 0 <= k < |s| - |r| ==> IsSpace(s[k])
    ensures r == [] || !IsSpace(r[0])
  {
    if s != [] && IsSpace(s[0]) then TrimStart(s[1..]) else s
  }

  /** `s` with its trailing white space removed: a prefix of `s` that does
      not end with white space and that only white space follows. */
  function TrimEnd(s: string): (r: string)
    ensures |r| <= |s| && r == s[..|r|]
    ensures forall k :: |r| <= k < |s| ==> IsSpace(s[k])
    ensures r == [] || !IsSpace(r[|r| - 1])
  {
    if s != [] && IsSpace(s[|s| - 1]) then TrimEnd(s[..|s| - 1]) else s
  }

  /** `r` is the slice of `s` starting at `lo` and only white space lies
      outside it. */
  ghost predicate TrimmedAt(s: string, r: string, lo: int) {
    && 0 <= lo && lo + |r| <= |s|
    && r == s[lo..lo + |r|]
    && (forall k :: 0 <= k < lo ==> IsSpace(s[k]))
    && (forall k :: lo + |r| <= k < |s| ==> IsSpace(s[k]))
  }

  /** `trim`: the contiguous slice of `s` left when white space is removed
      from both ends; it neither starts nor ends with white space. */
  function Trim(s: string): (r: string)
    ensures exists lo :: TrimmedAt(s, r, lo)
    ensures r == [] || (!IsSpace(r[0]) && !IsSpace(r[|r| - 1]))
  {
    var t := TrimStart(s);
    var r := TrimEnd(t);
    assert TrimmedAt(s, r, |s| - |t|) by {
      forall k | |s| - |t| + |r| <= k < |s|
        ensures IsSpace(s[k])
      {
        assert s[k] == t[k - (|s| - |t|)];
      }
    }
    r
  }

  /** The source's `!x.trim()`: the text is empty once trimmed, which is
      the case exactly when every character is white space. */
  function IsBlank(s: string): (b: bool)
    ensures b <==> forall k :: 0 <= k < |s| ==> IsSpace(s[k])
  {
    TrimEmptyIffBlank(s);
    Trim(s) == []
  }

  /** Some character of `s` is not white space. */
  predicate HasContent(s: string) {
    exists k | 0 <= k < |s| :: !IsSpace(s[k])
  }

  /** A text has content exactly when it is not blank. */
  lemma HasContentIffNotBlank(s: string)
    ensures HasContent(s) <==> !IsBlank(s)
  {
  }

  /** Trimming a text that is not blank leaves a non-empty text. */
  lemma TrimOfNonBlank(s: string)
    requires !IsBlank(s)
    ensures Trim(s) != []
  {
  }

  lemma TrimEmptyIffBlank(s: string)
    ensures Trim(s) == [] <==> forall k :: 0 <= k < |s| ==> IsSpace(s[k])
  {
  }

  // ---------------------------------------------------------------------------
  // Decimal rendering (`Number.prototype.toString` on a non-negative integer)
  // ---------------------------------------------------------------------------

  predicate IsDigit(c: char) {
    '0' <= c <= '9'
  }

  function DigitChar(d: nat): (c: char)
    requires d < 10
    ensures IsDigit(c) && c as int - '0' as int == d
  {
    ('0' as int + d) as char
  }

  /** The decimal numeral of `n`: digits only, with no leading zero. */
  function NatToString(n: nat): (r: string)
    ensures |r| >= 1
    ensures forall k :: 0 <= k < |r| ==> IsDigit(r[k])
    ensures |r| > 1 ==> r[0] != '0'
  {
    if n < 10 then [DigitChar(n)] else NatToString(n / 10) + [DigitChar(n % 10)]
  }

  /** The value of a string of decimal digits. */
  function DecimalValue(s: string): nat
    requires forall k :: 0 <= k < |s| ==> IsDigit(s[k])
  {
    if s == [] then 0
    else
      assert IsDigit(s[|s| - 1]);
      DecimalValue(s[..|s| - 1]) * 10 + (s[|s| - 1] as int - '0' as int)
  }

  /** Reading back the numeral of `n` gives `n`. */
  lemma {:induction false} DecimalRoundTrip(n: nat)
    ensures DecimalValue(NatToString(n)) == n
  {
    if n >= 10 {
      var r := NatToString(n);
      assert r[..|r| - 1] == NatToString(n / 10);
      DecimalRoundTrip(n / 10);
    }
  }

  /** Distinct numbers have distinct numerals. */
  lemma NatToStringInjective(a: nat, b: nat)
    ensures NatToString(a) == NatToString(b) ==> a == b
  {
    DecimalRoundTrip(a);
    DecimalRoundTrip(b);
  }

  // ---------------------------------------------------------------------------
  // `email.split('@')[0]`
  // ---------------------------------------------------------------------------

  /** The text before the first '@' (all of `email` when it has none). */
  function LocalPart(email: string): (r: string)
    ensures r <= email
    ensures '@' !in r
    ensures |r| < |email| ==> email[|r|] == '@'
  {
    if email == [] || email[0] == '@' then [] else [email[0]] + LocalPart(email[1..])
  }
}
