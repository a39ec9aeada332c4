/**
 * `extractFieldsFromText` (src/lib/pdfUtils.js:43-102): a total map from the
 * text of a résumé to a profile of name, e-mail and phone. The e-mail and
 * the phone are the first matches of their patterns; the name comes from
 * the first of three passes that finds one.
 */
module FieldExtractor {
  import opened Text
  import opened Wrappers
  import opened EmailScan
  import opened PhoneScan
  import opened NameHeuristics

  datatype Profile = Profile(name: string, email: string, phone: string)

  /** `text.replace(/\r/g, "\n")`. */
  function Normalize(text: string): (r: string)
    ensures |r| == |text|
    ensures forall k :: 0 <= k < |text| ==> r[k] == (if text[k] == '\r' then '\n' else text[k])
  {
    seq(|text|, k requires 0 <= k < |text| => if text[k] == '\r' then '\n' else text[k])
  }

  function TrimAll(ls: seq<string>): (r: seq<string>)
    ensures |r| == |ls|
    ensures forall k :: 0 <= k < |ls| ==> r[k] == Trim(ls[k])
  {
    seq(|ls|, k requires 0 <= k < |ls| => Trim(ls[k]))
  }

  /** `cleaned.split("\n").map((l) => l.trim()).filter(Boolean)`. */
  function Lines(text: string): seq<string> {
    NonEmpty(TrimAll(SplitOn(Normalize(text), '\n')))
  }

  /** Every line is non-empty, trimmed, and free of line breaks. */
  lemma LinesShape(text: string)
    ensures forall k :: 0 <= k < |Lines(text)| ==>
      Lines(text)[k] != "" && IsTrimmed(Lines(text)[k])
      && '\n' !in Lines(text)[k] && '\r' !in Lines(text)[k]
  {
    var n := Normalize(text);
    assert '\r' !in n;
    var trimmed := TrimAll(SplitOn(n, '\n'));
    forall i | 0 <= i < |trimmed|
      ensures IsTrimmed(trimmed[i]) && '\n' !in trimmed[i] && '\r' !in trimmed[i]
    {
      TrimmedPieceShape(n, i);
    }
    var lines := Lines(text);
    NonEmptyMembers(trimmed);
    forall k | 0 <= k < |lines|
      ensures lines[k] != "" && IsTrimmed(lines[k]) && '\n' !in lines[k] && '\r' !in lines[k]
    {
      assert lines[k] in trimmed;
    }
  }

  lemma TrimmedPieceShape(n: string, i: nat)
    requires '\r' !in n && i < |SplitOn(n, '\n')|
    ensures var x := Trim(SplitOn(n, '\n')[i]);
      IsTrimmed(x) && '\n' !in x && '\r' !in x
  {
    var piece := SplitOn(n, '\n')[i];
    var x := Trim(piece);
    var a: nat :| PaddedAt(piece, x, a);
    SplitOnPieceChars(n, '\n', i);
    forall k | 0 <= k < |x| ensures x[k] != '\n' && x[k] != '\r' {
      assert x[k] == piece[a + k];
    }
  }

  /** The name the three passes settle on, before the final `trim()`: pass 1
      if it finds a line, else pass 2, else the name derived from a
      non-empty e-mail, else `""`. */
  function NameOf(lines: seq<string>, email: string): string {
    if PassResult(lines, Header) != "" then PassResult(lines, Header)
    else if PassResult(lines, Strict) != "" then PassResult(lines, Strict)
    else if email != "" then DerivedName(email)
    else ""
  }

  /** The profile the extractor returns for `text`. */
  function FieldsOf(text: string): Profile {
    if text == "" then Profile("", "", "")
    else
      var email := EmailOf(text);
      Profile(Trim(NameOf(Lines(text), email)), Trim(email), Trim(PhoneOf(text)))
  }

  /** `extractFieldsFromText` as the source writes it: the two pass loops in
      turn, the e-mail fallback, and the final trims. */
  method ExtractFields(text: string) returns (r: Profile)
    ensures r == FieldsOf(text)
  {
    if text == "" {
      return Profile("", "", "");
    }
    var lines := Lines(text);
    var email := EmailOf(text);
    var phone := PhoneOf(text);
    var name := ScanNamePass(lines, Header);
    if name == "" {
      name := ScanNamePass(lines, Strict);
    }
    if name == "" && email != "" {
      name := DerivedName(email);
    }
    r := Profile(Trim(name), Trim(email), Trim(phone));
  }

  // ---------------------------------------------------------------------
  // What the extractor promises

  /** Every field comes back trimmed, and empty input gives three empty
      fields. */
  lemma FieldsTrimmed(text: string)
    ensures IsTrimmed(FieldsOf(text).name) && IsTrimmed(FieldsOf(text).email)
    ensures IsTrimmed(FieldsOf(text).phone)
    ensures text == "" ==> FieldsOf(text) == Profile("", "", "")
  {
  }

  /** The e-mail field is the first match of the e-mail pattern (the
      leftmost e-mail shaped slice, and the longest at its start), and empty
      exactly when the input holds no e-mail shaped slice. */
  lemma EmailField(text: string)
    ensures FieldsOf(text).email == EmailOf(text)
    ensures FirstEmail(text).Some? ==>
      var (i, j) := FirstEmail(text).value;
      FieldsOf(text).email == text[i..j] && EmailSpan(text, i, j)
    ensures FieldsOf(text).email == "" <==> forall i: nat, j: nat :: !EmailSpan(text, i, j)
  {
    SameEmail(text);
    EmailOfIsFirstMatch(text);
    FirstEmailIsLeftmostLongest(text);
  }

  /** The final `trim()` leaves the e-mail as it is. */
  lemma SameEmail(text: string)
    ensures FieldsOf(text).email == EmailOf(text)
  {
    if text == "" {
      NoMatchInEmptyText();
    } else {
      FieldsOfText(text);
      TrimIdempotent(EmailOf(text));
    }
  }

  /** The final `trim()` leaves the phone as it is. */
  lemma SamePhone(text: string)
    ensures FieldsOf(text).phone == PhoneOf(text)
  {
    if text == "" {
      NoMatchInEmptyText();
    } else {
      FieldsOfText(text);
      TrimIdempotent(PhoneOf(text));
    }
  }

  lemma NoMatchInEmptyText()
    ensures EmailOf("") == "" && PhoneOf("") == ""
  {
  }

  /** The fields of a non-empty text, each taken with the final `trim()`. */
  lemma FieldsOfText(text: string)
    requires text != ""
    ensures FieldsOf(text).name == Trim(NameOf(Lines(text), EmailOf(text)))
    ensures FieldsOf(text).email == Trim(EmailOf(text))
    ensures FieldsOf(text).phone == Trim(PhoneOf(text))
  {
  }

  /** The phone field is the first match of the phone pattern: a slice of the
      input that the pattern matches, with no match starting further left,
      at least ten digits, and only digits, separators and a leading `+`;
      empty exactly when no slice of the input matches. */
  lemma PhoneField(text: string)
    ensures FieldsOf(text).phone == PhoneOf(text)
    ensures FieldsOf(text).phone == "" <==> forall i: nat, j: nat :: !PhoneSpan(text, i, j)
    ensures FieldsOf(text).phone != "" ==>
      exists i: nat, j: nat :: i < j <= |text| && FieldsOf(text).phone == text[i..j]
        && PhoneSpan(text, i, j)
        && (forall i': nat, j': nat :: i' < i ==> !PhoneSpan(text, i', j'))
    ensures FieldsOf(text).phone != "" ==> CountDigits(FieldsOf(text).phone) >= 10
    ensures PhoneChars(FieldsOf(text).phone)
  {
    PhoneShape(text);
    SamePhone(text);
    if text == "" {
      forall i: nat, j: nat ensures !PhoneSpan(text, i, j) {
        if PhoneSpan(text, i, j) {
          SpanShape(text, i, j);
        }
      }
    }
  }

  /** Where the name field (`FieldsOfText`) comes from, for any list of
      trimmed lines such as `Lines(text)` (`LinesShape`). Pass 1 wins when it
      accepts one of the first 8 lines; only when it accepts none is pass 2,
      over the first 20 lines, consulted; the name is then the accepted line
      itself, which holds no `@` and no digit. Only when both passes fail and
      the e-mail is non-empty is the name derived from the e-mail: ASCII
      letters and spaces, each token capitalised, even after the final
      `trim()`. Otherwise the name is empty. */
  lemma NameProvenance(lines: seq<string>, email: string)
    requires forall k :: 0 <= k < |lines| ==> IsTrimmed(lines[k])
    ensures var name := Trim(NameOf(lines, email));
      match FirstAccepted(lines, Header)
      case Some(k) =>
        k < 8 && name == lines[k] && Accepts(Header, lines[k])
        && '@' !in name && !Any(name, IsDigit)
      case None =>
        match FirstAccepted(lines, Strict)
        case Some(k) =>
          k < 20 && name == lines[k] && Accepts(Strict, lines[k])
          && '@' !in name && !Any(name, IsDigit)
        case None =>
          (email == "" ==> name == "")
          && (email != "" ==> All(name, IsLetterOrSpace) && IsCapitalised(name))
  {
    if FirstAccepted(lines, Header).None? && FirstAccepted(lines, Strict).None? && email != "" {
      DerivedNameShape(email);
      TrimKeepsShape(DerivedName(email));
    }
  }
}
