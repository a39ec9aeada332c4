/**
 * The e-mail step of the field extractor (src/lib/pdfUtils.js:50-51): the
 * first match of `/[A-Z0-9._%+-]+@[A-Z0-9.-]+\.[A-Z]{2,}/i` in the text.
 *
 * The regular expression is modelled as the scanner a backtracking engine
 * runs: try each start position from the left; at a start, the greedy local
 * part, the `@`, the greedy domain run, and then the dot positions from the
 * right end of that run back towards the `@`, taking the first dot that is
 * followed by two letters and then every further letter. The lemmas show
 * that this finds the leftmost start of any e-mail shaped slice and, at that
 * start, the longest one.
 */
module EmailScan {
  import opened Wrappers
  import opened Text
  import opened Scan

  /** `[A-Z0-9._%+-]` under the `i` flag. */
  predicate IsLocalChar(c: char) {
    IsLetter(c) || IsDigit(c) || c == '.' || c == '_' || c == '%' || c == '+' || c == '-'
  }

  /** `[A-Z0-9.-]` under the `i` flag. */
  predicate IsDomainChar(c: char) {
    IsLetter(c) || IsDigit(c) || c == '.' || c == '-'
  }

  /** `s[i..j]` is e-mail shaped, with its `@` at `at` and the dot before its
      top-level domain at `dot`: a non-empty local part, `@`, a non-empty
      domain, `.`, and at least two letters. */
  predicate EmailParts(s: string, i: nat, at: nat, dot: nat, j: nat) {
    i < at && at + 1 < dot && dot + 3 <= j <= |s|
    && (forall k :: i <= k < at ==> IsLocalChar(s[k]))
    && s[at] == '@'
    && (forall k :: at < k < dot ==> IsDomainChar(s[k]))
    && s[dot] == '.'
    && (forall k :: dot < k < j ==> IsLetter(s[k]))
  }

  /** The slice `s[i..j]` is a string the regular expression matches. */
  ghost predicate EmailSpan(s: string, i: nat, j: nat) {
    exists at: nat, dot: nat :: EmailParts(s, i, at, dot, j)
  }

  /** `\.[A-Z]{2,}` can begin at `dot`. */
  predicate TldStartsAt(s: string, dot: nat) {
    dot + 2 < |s| && s[dot] == '.' && IsLetter(s[dot + 1]) && IsLetter(s[dot + 2])
  }

  /** Backtracking of the greedy domain run: the dot positions from `top`
      down to `lo` are tried in turn and the first that starts a top-level
      domain wins, so the result is the right-most such position. */
  function LastTldDot(s: string, lo: nat, top: int): (r: Option<nat>)
    ensures r.Some? ==> lo <= r.value <= top && TldStartsAt(s, r.value)
    ensures r.Some? ==> forall q: nat :: r.value < q <= top ==> !TldStartsAt(s, q)
    ensures r.None? ==> forall q: nat :: lo <= q <= top ==> !TldStartsAt(s, q)
    decreases top - lo + 1
  {
    if top < lo then None
    else if TldStartsAt(s, top) then Some(top)
    else LastTldDot(s, lo, top - 1)
  }

  /** The end of the match that starts at `i`, if one does. */
  function MatchAt(s: string, i: nat): (r: Option<nat>)
    ensures r.Some? ==> i < r.value <= |s|
  {
    if i > |s| then None else
    var at := RunEnd(s, i, IsLocalChar);
    if at == i || at == |s| || s[at] != '@' then None
    else
      var k := RunEnd(s, at + 1, IsDomainChar);
      match LastTldDot(s, at + 2, k - 1)
      case None => None
      case Some(dot) => Some(RunEnd(s, dot + 1, IsLetter))
  }

  /** What the scanner matches at `i` is e-mail shaped. */
  lemma MatchAtSound(s: string, i: nat)
    requires i <= |s| && MatchAt(s, i).Some?
    ensures EmailSpan(s, i, MatchAt(s, i).value)
  {
    var at := RunEnd(s, i, IsLocalChar);
    var k := RunEnd(s, at + 1, IsDomainChar);
    var dot := LastTldDot(s, at + 2, k - 1).value;
    var j := RunEnd(s, dot + 1, IsLetter);
    assert MatchAt(s, i).value == j;
    RunEndCovers(s, dot + 1, IsLetter, dot + 3);
    assert forall q :: at < q < dot ==> IsDomainChar(s[q]);
    assert EmailParts(s, i, at, dot, j);
  }

  /** Whenever an e-mail shaped slice starts at `i`, the scanner matches at
      `i`, and its match is at least as long. */
  lemma MatchAtComplete(s: string, i: nat, j': nat)
    requires i <= |s| && EmailSpan(s, i, j')
    ensures MatchAt(s, i).Some? && j' <= MatchAt(s, i).value
  {
    var at: nat, dot': nat :| EmailParts(s, i, at, dot', j');
    RunEndIsFirstMiss(s, i, IsLocalChar, at);
    DomainRunCovers(s, i, at, dot', j');
    var k := RunEnd(s, at + 1, IsDomainChar);
    assert TldStartsAt(s, dot');
    var dot := LastTldDot(s, at + 2, k - 1).value;
    MatchAtParts(s, i, at, dot);
    if dot == dot' {
      RunEndCovers(s, dot + 1, IsLetter, j');
    } else {
      assert j' <= dot;
    }
  }

  /** The match at `i` ends where the top-level letters after the chosen
      dot run out. */
  lemma MatchAtParts(s: string, i: nat, at: nat, dot: nat)
    requires i < at < |s| && s[at] == '@' && at == RunEnd(s, i, IsLocalChar)
    requires LastTldDot(s, at + 2, RunEnd(s, at + 1, IsDomainChar) - 1) == Some(dot)
    ensures MatchAt(s, i) == Some(RunEnd(s, dot + 1, IsLetter))
  {
  }

  /** The greedy domain run after the `@` reaches past the end of any
      e-mail shaped slice with that `@`: the dot and the top-level letters
      are domain characters too. */
  lemma DomainRunCovers(s: string, i: nat, at: nat, dot: nat, j: nat)
    requires EmailParts(s, i, at, dot, j)
    ensures RunEnd(s, at + 1, IsDomainChar) >= j
  {
    RunEndCovers(s, at + 1, IsDomainChar, j);
  }

  /** `text.match(...)`: the start and end of the first match, if any. */
  function FirstEmail(s: string): Option<(nat, nat)> {
    FirstFrom(q => MatchAt(s, q), 0, |s|)
  }

  /** The first match is the leftmost e-mail shaped slice of the text and,
      among those starting there, the longest; there is no match exactly
      when the text holds no e-mail shaped slice at all. */
  lemma FirstEmailIsLeftmostLongest(s: string)
    ensures FirstEmail(s).Some? ==>
      var (i, j) := FirstEmail(s).value;
      EmailSpan(s, i, j)
      && (forall i': nat, j': nat :: i' < i ==> !EmailSpan(s, i', j'))
      && (forall j': nat :: EmailSpan(s, i, j') ==> j' <= j)
    ensures FirstEmail(s).None? <==> forall i': nat, j': nat :: !EmailSpan(s, i', j')
  {
    var r := FirstEmail(s);
    forall i': nat, j': nat | EmailSpan(s, i', j')
      ensures r.Some? && r.value.0 <= i'
    {
      assert i' <= |s| by {
        var at: nat, dot: nat :| EmailParts(s, i', at, dot, j');
      }
      MatchAtComplete(s, i', j');
      assert (q => MatchAt(s, q))(i').Some?;
    }
    if r.Some? {
      var (i, j) := r.value;
      MatchAtSound(s, i);
      forall j': nat | EmailSpan(s, i, j') ensures j' <= j {
        MatchAtComplete(s, i, j');
      }
    }
  }

  /** The extractor's e-mail: the first match, trimmed, or `""`. */
  function EmailOf(text: string): string {
    match FirstEmail(text)
    case Some((i, j)) => Trim(text[i..j])
    case None => ""
  }

  /** An e-mail shaped slice holds no whitespace, so the `trim()` the
      extractor applies leaves the match as it is: the e-mail is exactly the
      first match, and empty exactly when there is none. */
  lemma EmailOfIsFirstMatch(text: string)
    ensures FirstEmail(text).None? ==> EmailOf(text) == ""
    ensures FirstEmail(text).Some? ==>
      var (i, j) := FirstEmail(text).value;
      i < j <= |text| && EmailOf(text) == text[i..j] && EmailOf(text) != ""
  {
    if FirstEmail(text).Some? {
      var (i, j) := FirstEmail(text).value;
      MatchAtSound(text, i);
      var at: nat, dot: nat :| EmailParts(text, i, at, dot, j);
      SpanHasNoWhitespace(text, i, at, dot, j);
    }
  }

  lemma SpanHasNoWhitespace(s: string, i: nat, at: nat, dot: nat, j: nat)
    requires EmailParts(s, i, at, dot, j)
    ensures IsTrimmed(s[i..j]) && s[i..j] != ""
  {
    assert s[i..j][0] == s[i];
    assert s[i..j][j - i - 1] == s[j - 1];
  }

  /** The shape of a non-empty e-mail: a slice of the input made of a local
      part over letters, digits and `._%+-`, an `@`, a domain over letters,
      digits, `.` and `-`, and a final `.` with at least two letters. */
  lemma EmailShape(text: string)
    requires EmailOf(text) != ""
    ensures exists i: nat, at: nat, dot: nat, j: nat ::
      EmailParts(text, i, at, dot, j) && EmailOf(text) == text[i..j]
  {
    EmailOfIsFirstMatch(text);
    var (i, j) := FirstEmail(text).value;
    MatchAtSound(text, i);
    var at: nat, dot: nat :| EmailParts(text, i, at, dot, j);
    assert EmailParts(text, i, at, dot, j) && EmailOf(text) == text[i..j];
  }
}
