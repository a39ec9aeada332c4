/**
 * The phone step of the field extractor (src/lib/pdfUtils.js:54-55): the
 * first match of
 *   `/(\+?\d{1,3}[-.\s]?)?(\d{10}|\d{5}[-.\s]\d{5}|\d{3}[-.\s]\d{3}[-.\s]\d{4})/`
 * in the text.
 *
 * The scanner follows the order in which a backtracking engine tries the
 * alternatives at one start position: the optional prefix group before its
 * absence, a `+` before none, three country digits before two before one, a
 * separator before none, and the three number groupings in the order
 * written. The lemmas show that a start position matches exactly when a slice
 * in the regular expression's language starts there.
 */
module PhoneScan {
  import opened Wrappers
  import opened Text
  import opened Scan

  /** `[-.\s]`. */
  predicate IsSep(c: char) {
    c == '-' || c == '.' || IsWhitespace(c)
  }

  /** `s[lo..hi]` is all digits. */
  predicate DigitsIn(s: string, lo: nat, hi: nat) {
    lo <= hi <= |s| && forall k :: lo <= k < hi ==> IsDigit(s[k])
  }

  predicate SepAt(s: string, k: nat) {
    k < |s| && IsSep(s[k])
  }

  /** `s[b..j]` is one of the three groupings of ten digits:
      `\d{10}`, `\d{5}[-.\s]\d{5}` or `\d{3}[-.\s]\d{3}[-.\s]\d{4}`. */
  predicate NumberSpan(s: string, b: nat, j: nat) {
    (j == b + 10 && DigitsIn(s, b, b + 10))
    || (j == b + 11 && DigitsIn(s, b, b + 5) && SepAt(s, b + 5) && DigitsIn(s, b + 6, b + 11))
    || (j == b + 12 && DigitsIn(s, b, b + 3) && SepAt(s, b + 3) && DigitsIn(s, b + 4, b + 7)
        && SepAt(s, b + 7) && DigitsIn(s, b + 8, b + 12))
  }

  /** `s[i..b]` is matched by the prefix group `\+?\d{1,3}[-.\s]?`: a `+` if
      there is one, one to three digits, and a separator if there is one. */
  predicate PrefixSpan(s: string, i: nat, b: nat) {
    i < b <= |s|
    && var a := if s[i] == '+' then i + 1 else i;
       var e := if IsSep(s[b - 1]) then b - 1 else b;
       a < e <= a + 3 && DigitsIn(s, a, e)
  }

  /** The slice `s[i..j]` is a string the regular expression matches. */
  ghost predicate PhoneSpan(s: string, i: nat, j: nat) {
    NumberSpan(s, i, j) || exists b: nat :: PrefixSpan(s, i, b) && NumberSpan(s, b, j)
  }

  function Or(x: Option<nat>, y: Option<nat>): Option<nat> {
    if x.Some? then x else y
  }

  /** The number groupings at `b`, tried in the order written. */
  function NumberAt(s: string, b: nat): (r: Option<nat>)
    ensures r.Some? ==> NumberSpan(s, b, r.value)
    ensures r.None? ==> forall j: nat :: !NumberSpan(s, b, j)
  {
    if DigitsIn(s, b, b + 10) then Some(b + 10)
    else if DigitsIn(s, b, b + 5) && SepAt(s, b + 5) && DigitsIn(s, b + 6, b + 11) then Some(b + 11)
    else if DigitsIn(s, b, b + 3) && SepAt(s, b + 3) && DigitsIn(s, b + 4, b + 7)
            && SepAt(s, b + 7) && DigitsIn(s, b + 8, b + 12) then Some(b + 12)
    else None
  }

  /** `\d{1,3}` having taken `d` digits at `a`, then `[-.\s]?` (a separator
      first, none on backtracking), then the number. */
  function AfterDigits(s: string, a: nat, d: nat): Option<nat> {
    if !DigitsIn(s, a, a + d) then None
    else if SepAt(s, a + d) && NumberAt(s, a + d + 1).Some? then NumberAt(s, a + d + 1)
    else NumberAt(s, a + d)
  }

  /** The greedy `\d{1,3}` at `a`: three digits, then two, then one. */
  function AfterCountry(s: string, a: nat): Option<nat> {
    Or(AfterDigits(s, a, 3), Or(AfterDigits(s, a, 2), AfterDigits(s, a, 1)))
  }

  /** The end of the match that starts at `i`, if one does: the prefix group
      with a `+`, the prefix group without one, and no prefix group. */
  function MatchAt(s: string, i: nat): (r: Option<nat>)
    ensures r.Some? ==> i < r.value <= |s|
  {
    Or(if i < |s| && s[i] == '+' then AfterCountry(s, i + 1) else None,
       Or(AfterCountry(s, i), NumberAt(s, i)))
  }

  lemma AfterDigitsSound(s: string, i: nat, a: nat, d: nat)
    requires 1 <= d <= 3 && i <= a <= i + 1 && (a == i + 1 <==> i < |s| && s[i] == '+')
    requires AfterDigits(s, a, d).Some?
    ensures PhoneSpan(s, i, AfterDigits(s, a, d).value)
  {
    var j := AfterDigits(s, a, d).value;
    var b := if SepAt(s, a + d) && NumberAt(s, a + d + 1).Some? then a + d + 1 else a + d;
    assert !IsSep(s[a + d - 1]);
    assert PrefixSpan(s, i, b);
    assert NumberSpan(s, b, j);
  }

  /** What the scanner matches at `i` is in the language. */
  lemma MatchAtSound(s: string, i: nat)
    requires i <= |s| && MatchAt(s, i).Some?
    ensures PhoneSpan(s, i, MatchAt(s, i).value)
  {
    var plus := i < |s| && s[i] == '+';
    var a := if plus then i + 1 else i;
    if plus && AfterCountry(s, i + 1).Some? {
      AfterCountrySound(s, i, i + 1);
    } else if AfterCountry(s, i).Some? {
      AfterCountrySound(s, i, i);
    }
  }

  lemma AfterCountrySound(s: string, i: nat, a: nat)
    requires i <= a <= i + 1 && (a == i + 1 <==> i < |s| && s[i] == '+')
    requires AfterCountry(s, a).Some?
    ensures PhoneSpan(s, i, AfterCountry(s, a).value)
  {
    if AfterDigits(s, a, 3).Some? {
      AfterDigitsSound(s, i, a, 3);
    } else if AfterDigits(s, a, 2).Some? {
      AfterDigitsSound(s, i, a, 2);
    } else {
      AfterDigitsSound(s, i, a, 1);
    }
  }

  /** Whenever a slice in the language starts at `i`, the scanner matches
      at `i`. */
  lemma MatchAtComplete(s: string, i: nat, j: nat)
    requires i <= |s| && PhoneSpan(s, i, j)
    ensures MatchAt(s, i).Some?
  {
    if NumberSpan(s, i, j) {
      assert NumberAt(s, i).Some?;
    } else {
      var b: nat :| PrefixSpan(s, i, b) && NumberSpan(s, b, j);
      MatchAtViaPrefix(s, i, b, j);
    }
  }

  /** A prefix group followed by a number: the greedy country digits reach a
      number too. */
  lemma MatchAtViaPrefix(s: string, i: nat, b: nat, j: nat)
    requires PrefixSpan(s, i, b) && NumberSpan(s, b, j)
    ensures MatchAt(s, i).Some?
  {
    var a := if s[i] == '+' then i + 1 else i;
    var e := if IsSep(s[b - 1]) then b - 1 else b;
    assert NumberAt(s, b).Some?;
    AfterDigitsComplete(s, a, e - a, b);
    AfterCountryComplete(s, a, e - a);
    MatchAtViaCountry(s, i, a);
  }

  /** The prefix group's digits start after the `+` if there is one, and a
      match there is a match at `i`. */
  lemma MatchAtViaCountry(s: string, i: nat, a: nat)
    requires i < |s| && a == (if s[i] == '+' then i + 1 else i)
    requires AfterCountry(s, a).Some?
    ensures MatchAt(s, i).Some?
  {
  }

  /** Having taken `d` digits at `a`, the prefix group goes on to a number
      whenever one starts right after them or after one separator. */
  lemma AfterDigitsComplete(s: string, a: nat, d: nat, b: nat)
    requires DigitsIn(s, a, a + d)
    requires b == a + d || (b == a + d + 1 && SepAt(s, a + d))
    requires NumberAt(s, b).Some?
    ensures AfterDigits(s, a, d).Some?
  {
  }

  /** Any digit count the prefix group can match lets the greedy count
      succeed too. */
  lemma AfterCountryComplete(s: string, a: nat, d: nat)
    requires 1 <= d <= 3 && AfterDigits(s, a, d).Some?
    ensures AfterCountry(s, a).Some?
  {
  }

  /** `text.match(...)`: the start and end of the first match, if any. */
  function FirstPhone(s: string): Option<(nat, nat)> {
    FirstFrom(q => MatchAt(s, q), 0, |s|)
  }

  /** The first match is a slice in the language that starts further left
      than any other; there is no match exactly when no slice of the text is
      in the language. */
  lemma FirstPhoneIsLeftmost(s: string)
    ensures FirstPhone(s).Some? ==>
      var (i, j) := FirstPhone(s).value;
      PhoneSpan(s, i, j) && forall i': nat, j': nat :: i' < i ==> !PhoneSpan(s, i', j')
    ensures FirstPhone(s).None? <==> forall i': nat, j': nat :: !PhoneSpan(s, i', j')
  {
    var r := FirstPhone(s);
    forall i': nat, j': nat | PhoneSpan(s, i', j')
      ensures r.Some? && r.value.0 <= i'
    {
      SpanBounds(s, i', j');
      MatchAtComplete(s, i', j');
      assert (q => MatchAt(s, q))(i').Some?;
    }
    if r.Some? {
      MatchAtSound(s, r.value.0);
    }
  }

  lemma SpanBounds(s: string, i: nat, j: nat)
    requires PhoneSpan(s, i, j)
    ensures i < j <= |s|
  {
    if !NumberSpan(s, i, j) {
      var b: nat :| PrefixSpan(s, i, b) && NumberSpan(s, b, j);
    }
  }

  /** The extractor's phone: the first match, trimmed, or `""`. */
  function PhoneOf(text: string): string {
    match FirstPhone(text)
    case Some((i, j)) => Trim(text[i..j])
    case None => ""
  }

  // ---------------------------------------------------------------------
  // The shape of a phone

  function CountDigits(t: string): nat {
    if t == [] then 0
    else CountDigits(t[..|t| - 1]) + (if IsDigit(t[|t| - 1]) then 1 else 0)
  }

  lemma {:induction false} CountDigitsAppend(x: string, y: string)
    ensures CountDigits(x + y) == CountDigits(x) + CountDigits(y)
    decreases |y|
  {
    if y != [] {
      assert (x + y)[..|x + y| - 1] == x + y[..|y| - 1];
      CountDigitsAppend(x, y[..|y| - 1]);
    } else {
      assert x + y == x;
    }
  }

  lemma CountDigitsSplit(s: string, lo: nat, mid: nat, hi: nat)
    requires lo <= mid <= hi <= |s|
    ensures CountDigits(s[lo..hi]) == CountDigits(s[lo..mid]) + CountDigits(s[mid..hi])
  {
    assert s[lo..hi] == s[lo..mid] + s[mid..hi];
    CountDigitsAppend(s[lo..mid], s[mid..hi]);
  }

  lemma {:induction false} CountDigitsOfDigits(s: string, lo: nat, hi: nat)
    requires DigitsIn(s, lo, hi)
    ensures CountDigits(s[lo..hi]) == hi - lo
    decreases hi - lo
  {
    if lo < hi {
      assert s[lo..hi][..hi - lo - 1] == s[lo..hi - 1];
      CountDigitsOfDigits(s, lo, hi - 1);
    }
  }

  lemma NumberHasTenDigits(s: string, b: nat, j: nat)
    requires NumberSpan(s, b, j)
    ensures CountDigits(s[b..j]) >= 10
  {
    if j == b + 10 {
      CountDigitsOfDigits(s, b, j);
    } else if j == b + 11 && DigitsIn(s, b, b + 5) && SepAt(s, b + 5) && DigitsIn(s, b + 6, b + 11) {
      CountDigitsSplit(s, b, b + 5, j);
      CountDigitsSplit(s, b + 5, b + 6, j);
      CountDigitsOfDigits(s, b, b + 5);
      CountDigitsOfDigits(s, b + 6, j);
    } else {
      CountDigitsSplit(s, b, b + 3, j);
      CountDigitsSplit(s, b + 3, b + 4, j);
      CountDigitsSplit(s, b + 4, b + 7, j);
      CountDigitsSplit(s, b + 7, b + 8, j);
      CountDigitsOfDigits(s, b, b + 3);
      CountDigitsOfDigits(s, b + 4, b + 7);
      CountDigitsOfDigits(s, b + 8, j);
    }
  }

  /** The characters a phone may hold: digits, separators, and a `+` in
      first place only. */
  predicate PhoneChars(t: string) {
    forall k :: 0 <= k < |t| ==> IsDigit(t[k]) || IsSep(t[k]) || (k == 0 && t[k] == '+')
  }

  /** A number is digits and separators, with a digit at each end. */
  lemma NumberChars(s: string, b: nat, j: nat)
    requires NumberSpan(s, b, j)
    ensures b < j <= |s| && IsDigit(s[b]) && IsDigit(s[j - 1])
    ensures forall k :: b <= k < j ==> IsDigit(s[k]) || IsSep(s[k])
  {
  }

  /** The prefix group is digits and separators after a digit or a `+`. */
  lemma PrefixChars(s: string, i: nat, b: nat)
    requires PrefixSpan(s, i, b)
    ensures IsDigit(s[i]) || s[i] == '+'
    ensures forall k :: i < k < b ==> IsDigit(s[k]) || IsSep(s[k])
  {
  }

  lemma SpanShape(s: string, i: nat, j: nat)
    requires PhoneSpan(s, i, j)
    ensures i < j <= |s|
    ensures CountDigits(s[i..j]) >= 10
    ensures PhoneChars(s[i..j])
    ensures IsDigit(s[j - 1]) && (IsDigit(s[i]) || s[i] == '+')
  {
    if NumberSpan(s, i, j) {
      NumberHasTenDigits(s, i, j);
      NumberChars(s, i, j);
    } else {
      var b: nat :| PrefixSpan(s, i, b) && NumberSpan(s, b, j);
      NumberHasTenDigits(s, b, j);
      CountDigitsSplit(s, i, b, j);
      NumberChars(s, b, j);
      PrefixChars(s, i, b);
    }
    var t := s[i..j];
    forall k | 0 <= k < |t| ensures IsDigit(t[k]) || IsSep(t[k]) || (k == 0 && t[k] == '+') {
      assert t[k] == s[i + k];
    }
  }

  /** A non-empty phone is the first match itself, a slice of the input that
      starts further left than any other slice in the language, holds at
      least ten digits, and is made of digits, `-`, `.` or whitespace
      separators and at most a leading `+`. An empty phone means no slice of
      the text is in the language. */
  lemma PhoneShape(text: string)
    ensures PhoneOf(text) == "" <==> forall i: nat, j: nat :: !PhoneSpan(text, i, j)
    ensures PhoneOf(text) != "" ==>
      exists i: nat, j: nat :: i < j <= |text| && PhoneOf(text) == text[i..j]
        && PhoneSpan(text, i, j)
        && (forall i': nat, j': nat :: i' < i ==> !PhoneSpan(text, i', j'))
    ensures CountDigits(PhoneOf(text)) >= 10 || PhoneOf(text) == ""
    ensures PhoneChars(PhoneOf(text))
  {
    FirstPhoneIsLeftmost(text);
    if FirstPhone(text).Some? {
      var (i, j) := FirstPhone(text).value;
      SpanShape(text, i, j);
      var t := text[i..j];
      assert t[0] == text[i] && t[|t| - 1] == text[j - 1];
      assert IsTrimmed(t);
      assert PhoneOf(text) == t;
    }
  }
}
