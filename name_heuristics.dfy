/**
 * The name step of the field extractor (src/lib/pdfUtils.js:57-95): two
 * passes over the trimmed non-empty lines, each a loop that stops at the
 * first line it accepts, and a last resort that builds a name from the
 * e-mail's local part.
 */
module NameHeuristics {
  import opened Wrappers
  import opened Text

  /** Pass 1 looks for a short capitalised header line, pass 2 for a line of
      strictly alphabetic words. */
  datatype Pass = Header | Strict

  /** How many leading lines a pass looks at. */
  function Limit(pass: Pass): nat {
    match pass
    case Header => 8
    case Strict => 20
  }

  /** `[|:;<>~}{]`. */
  predicate IsForbidden(c: char) {
    c == '|' || c == ':' || c == ';' || c == '<' || c == '>' || c == '~' || c == '}' || c == '{'
  }

  /** `/^[A-Z]/.test(w)`: case-sensitive, ASCII only. */
  predicate StartsUpper(w: string) {
    w != "" && IsUpper(w[0])
  }

  /** The `reduce` that counts the words starting with `A`-`Z`. */
  function CapCount(words: seq<string>): (n: nat)
    ensures n <= |words|
  {
    if words == [] then 0
    else CapCount(words[..|words| - 1]) + (if StartsUpper(words[|words| - 1]) then 1 else 0)
  }

  /** `/^[A-Za-z][a-zA-Z.'-]{1,}$/.test(w)`. */
  predicate IsNameWord(w: string) {
    |w| >= 2 && IsLetter(w[0])
    && forall k :: 1 <= k < |w| ==> IsLetter(w[k]) || w[k] == '.' || w[k] == '\'' || w[k] == '-'
  }

  /** The lines both passes pass over: empty, holding an `@`, or holding a
      digit. */
  predicate Skipped(ln: string) {
    ln == "" || '@' in ln || Any(ln, IsDigit)
  }

  /** The pass-specific test on a line and its words. Pass 1: one to four
      words, at least half of them capitalised (`capCount / words.length >=
      0.5`, exact on these small integers), and none of `| : ; < > ~ } {`.
      Pass 2: two to four words, every one a name word. */
  predicate WordsQualify(pass: Pass, ln: string, words: seq<string>) {
    match pass
    case Header => 1 <= |words| <= 4 && 2 * CapCount(words) >= |words| && !Any(ln, IsForbidden)
    case Strict => 2 <= |words| <= 4 && forall k :: 0 <= k < |words| ==> IsNameWord(words[k])
  }

  predicate Accepts(pass: Pass, ln: string) {
    !Skipped(ln) && WordsQualify(pass, ln, Words(ln))
  }

  /** `Math.min(lines.length, limit)`. */
  function Bound(lines: seq<string>, pass: Pass): nat {
    if |lines| < Limit(pass) then |lines| else Limit(pass)
  }

  /** The first line at or after `i`, within the pass's bound, that the pass
      accepts. */
  function FirstAcceptedFrom(lines: seq<string>, pass: Pass, i: nat): (r: Option<nat>)
    requires i <= Bound(lines, pass)
    ensures r.Some? ==> i <= r.value < Bound(lines, pass) && Accepts(pass, lines[r.value])
    ensures r.Some? ==> forall k :: i <= k < r.value ==> !Accepts(pass, lines[k])
    ensures r.None? ==> forall k :: i <= k < Bound(lines, pass) ==> !Accepts(pass, lines[k])
    decreases Bound(lines, pass) - i
  {
    if i == Bound(lines, pass) then None
    else if Accepts(pass, lines[i]) then Some(i)
    else FirstAcceptedFrom(lines, pass, i + 1)
  }

  function FirstAccepted(lines: seq<string>, pass: Pass): Option<nat> {
    FirstAcceptedFrom(lines, pass, 0)
  }

  /** The name a pass yields: its first accepted line, or `""`. */
  function PassResult(lines: seq<string>, pass: Pass): string {
    match FirstAccepted(lines, pass)
    case Some(k) => lines[k]
    case None => ""
  }

  /** One pass as the source writes it: a loop over the first lines that
      skips the excluded ones, tests the rest, and breaks at the first line
      it accepts. The name found is that pass's first accepted line, and
      `""` when no line within the bound is accepted. */
  method ScanNamePass(lines: seq<string>, pass: Pass) returns (name: string)
    ensures name == PassResult(lines, pass)
    ensures name != "" <==> FirstAccepted(lines, pass).Some?
  {
    name := "";
    var n := Bound(lines, pass);
    var i := 0;
    while i < n && name == ""
      invariant 0 <= i <= n
      invariant name == ""
      invariant FirstAcceptedFrom(lines, pass, i) == FirstAccepted(lines, pass)
    {
      var ln := lines[i];
      if ln != "" && '@' !in ln && !Any(ln, IsDigit) {
        var words := Words(ln);
        if WordsQualify(pass, ln, words) {
          name := ln;
          break;
        }
      }
      i := i + 1;
    }
  }

  // ---------------------------------------------------------------------
  // Pass 3: a name from the e-mail's local part

  /** `[._\-]`. */
  predicate IsLocalSep(c: char) {
    c == '.' || c == '_' || c == '-'
  }

  predicate IsNotLetter(c: char) {
    !IsLetter(c)
  }

  /** `email.split("@")[0]`. */
  function LocalPart(email: string): string {
    email[..IndexOf(email, '@')]
  }

  /** `p.replace(/[^a-zA-Z]/g, "")`. */
  function LettersOnly(p: string): (r: string)
    ensures All(r, IsLetter)
  {
    Without(p, IsNotLetter)
  }

  /** `p.charAt(0).toUpperCase() + p.slice(1)`. */
  function Capitalize(p: string): string {
    if p == "" then "" else [ToUpper(p[0])] + p[1..]
  }

  /** The name pass 3 builds: the local part split at `.`, `_` and `-`, empty
      pieces dropped, non-letters stripped from each remaining piece (which
      may leave it empty), each piece's first character upper-cased, and the
      pieces joined by single spaces. No piece at all gives `""`. */
  function DerivedName(email: string): string {
    NameFromPieces(NonEmpty(SplitWhere(LocalPart(email), IsLocalSep)))
  }

  function NameFromPieces(parts: seq<string>): string {
    if parts == [] then ""
    else JoinWith(seq(|parts|, k requires 0 <= k < |parts| => Capitalize(LettersOnly(parts[k]))), " ")
  }

  predicate IsLetterOrSpace(c: char) {
    IsLetter(c) || c == ' '
  }

  /** Position `k` of `s` starts a token: the string's start or just after a
      space. */
  predicate TokenStart(s: string, k: nat)
    requires k < |s|
  {
    k == 0 || s[k - 1] == ' '
  }

  /** Every letter that starts the string or follows a space is upper-case. */
  predicate IsCapitalised(s: string) {
    forall k: nat :: k < |s| && IsLetter(s[k]) && TokenStart(s, k) ==> IsUpper(s[k])
  }

  /** Pieces of letters, each capitalised, joined by spaces. */
  lemma {:induction false} JoinCapitalised(ps: seq<string>)
    requires forall k :: 0 <= k < |ps| ==> All(ps[k], IsLetter) && IsCapitalised(ps[k])
    ensures All(JoinWith(ps, " "), IsLetterOrSpace)
    ensures IsCapitalised(JoinWith(ps, " "))
  {
    if |ps| > 1 {
      JoinCapitalised(ps[1..]);
      var p, rest := ps[0], JoinWith(ps[1..], " ");
      assert All(p, IsLetter) && IsCapitalised(p);
      var s := JoinWith(ps, " ");
      assert s == p + " " + rest;
      forall k | 0 <= k < |s| ensures IsLetterOrSpace(s[k]) {
        if k < |p| { assert s[k] == p[k]; }
        else if k > |p| { assert s[k] == rest[k - |p| - 1]; }
      }
      forall k: nat | k < |s| && IsLetter(s[k]) && TokenStart(s, k)
        ensures IsUpper(s[k])
      {
        if k < |p| {
          assert s[k] == p[k];
          if k > 0 { assert s[k - 1] == p[k - 1]; }
          assert TokenStart(p, k);
        } else if k > |p| {
          var k': nat := k - |p| - 1;
          assert s[k] == rest[k'];
          if k' > 0 { assert s[k - 1] == rest[k' - 1]; }
          assert TokenStart(rest, k');
        }
      }
    }
  }

  lemma CapitalizeLetters(p: string)
    requires All(p, IsLetter)
    ensures All(Capitalize(p), IsLetter) && IsCapitalised(Capitalize(p))
  {
    if p != "" {
      var c := Capitalize(p);
      forall k | 0 <= k < |c| ensures IsLetter(c[k]) {
        if k > 0 { assert c[k] == p[k]; }
      }
    }
  }

  /** The derived name holds only ASCII letters and spaces, and every token
      starts with an upper-case letter. */
  lemma DerivedNameShape(email: string)
    ensures All(DerivedName(email), IsLetterOrSpace)
    ensures IsCapitalised(DerivedName(email))
  {
    var parts := NonEmpty(SplitWhere(LocalPart(email), IsLocalSep));
    assert DerivedName(email) == NameFromPieces(parts);
    if parts != [] {
      var caps := seq(|parts|, k requires 0 <= k < |parts| => Capitalize(LettersOnly(parts[k])));
      forall k | 0 <= k < |caps| ensures All(caps[k], IsLetter) && IsCapitalised(caps[k]) {
        CapitalizeLetters(LettersOnly(parts[k]));
      }
      JoinCapitalised(caps);
    }
  }

  /** The extractor's final `trim()` keeps the derived name's shape. */
  lemma TrimKeepsShape(s: string)
    requires All(s, IsLetterOrSpace) && IsCapitalised(s)
    ensures All(Trim(s), IsLetterOrSpace) && IsCapitalised(Trim(s))
  {
    var r := Trim(s);
    var a: nat :| PaddedAt(s, r, a);
    forall k | 0 <= k < |r| ensures IsLetterOrSpace(r[k]) {
      assert r[k] == s[a + k];
    }
    forall k: nat | k < |r| && IsLetter(r[k]) && TokenStart(r, k) ensures IsUpper(r[k]) {
      assert r[k] == s[a + k];
      if k > 0 {
        assert r[k - 1] == s[a + k - 1];
      } else if a > 0 {
        assert IsWhitespace(s[a - 1]);
        assert !IsLetter(s[a - 1]);
      }
      assert TokenStart(s, a + k);
    }
  }

  /** The local part is everything before the first `@`. */
  lemma LocalPartBeforeAt(p: string, rest: string)
    requires '@' !in p
    ensures LocalPart(p + ['@'] + rest) == p
  {
    IndexOfPrefix(p, '@', rest);
    assert (p + ['@'] + rest)[..|p|] == p;
  }

  lemma LocalPartOfExample()
    ensures LocalPart("john.q.public@x.com") == "john.q.public"
  {
    assert "john.q.public@x.com" == "john.q.public" + ['@'] + "x.com";
    LocalPartBeforeAt("john.q.public", "x.com");
  }

  lemma SplitOfExampleTail()
    ensures SplitWhere("q.public", IsLocalSep) == ["q", "public"]
  {
    assert "q.public" == "q" + ['.'] + "public";
    SplitWhereTwo("q", '.', "public", IsLocalSep);
  }

  lemma SplitOfExample()
    ensures SplitWhere("john.q.public", IsLocalSep) == ["john", "q", "public"]
  {
    assert "john.q.public" == "john" + ['.'] + "q.public";
    SplitWhereAt("john", '.', "q.public", IsLocalSep);
    SplitOfExampleTail();
  }

  lemma PiecesOfExample()
    ensures NonEmpty(["john", "q", "public"]) == ["john", "q", "public"]
  {
    var parts := ["john", "q", "public"];
    assert NonEmpty(parts[2..]) == ["public"];
    assert NonEmpty(parts[1..]) == ["q", "public"];
  }

  /** A piece made only of letters loses nothing to the letter filter and
      has only its first letter upper-cased. */
  lemma CapitalizedLetters(p: string)
    requires p != "" && All(p, IsLetter)
    ensures Capitalize(LettersOnly(p)) == [ToUpper(p[0])] + p[1..]
  {
    assert !Any(p, IsNotLetter);
    WithoutNone(p, IsNotLetter);
  }

  lemma CapitalizedJohn()
    ensures Capitalize(LettersOnly("john")) == "John"
  {
    CapitalizedLetters("john");
  }

  lemma CapitalizedQ()
    ensures Capitalize(LettersOnly("q")) == "Q"
  {
    CapitalizedLetters("q");
  }

  lemma CapitalizedPublic()
    ensures Capitalize(LettersOnly("public")) == "Public"
  {
    CapitalizedLetters("public");
  }

  lemma JoinOfExample()
    ensures JoinWith(["John", "Q", "Public"], " ") == "John Q Public"
  {
    var c := ["John", "Q", "Public"];
    assert JoinWith(c[2..], " ") == "Public";
    assert JoinWith(c[1..], " ") == "Q Public";
  }

  lemma PiecesToNameExample()
    ensures NameFromPieces(["john", "q", "public"]) == "John Q Public"
  {
    var parts := ["john", "q", "public"];
    var caps := seq(|parts|, k requires 0 <= k < |parts| => Capitalize(LettersOnly(parts[k])));
    assert caps == ["John", "Q", "Public"] by {
      CapitalizedJohn();
      CapitalizedQ();
      CapitalizedPublic();
      assert caps[0] == "John" && caps[1] == "Q" && caps[2] == "Public";
    }
    JoinOfExample();
  }

  /** `john.q.public@x.com` gives `John Q Public`. */
  lemma DerivedNameExample()
    ensures DerivedName("john.q.public@x.com") == "John Q Public"
  {
    LocalPartOfExample();
    SplitOfExample();
    PiecesOfExample();
    PiecesToNameExample();
  }

  /** A local part without letters gives an empty name: a non-empty e-mail
      does not guarantee a non-empty name. */
  lemma DerivedNameMayBeEmpty()
    ensures DerivedName("123@x.com") == ""
  {
    var e := "123@x.com";
    assert LocalPart(e) == "123" by {
      assert e == "123" + ['@'] + "x.com";
      LocalPartBeforeAt("123", "x.com");
    }
    assert SplitWhere("123", IsLocalSep) == ["123"] by {
      SplitWhereNone("123", IsLocalSep);
    }
    assert NonEmpty(["123"]) == ["123"];
    assert LettersOnly("123") == "";
  }
}
