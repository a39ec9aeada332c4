/**
 * The decision logic of the résumé uploader
 * (src/components/ResumeUploader.jsx:12-68): which files it parses, how the
 * extracted fields land in the editable profile, single-field edits, the
 * demo profile, and the confirm gate that insists on an e-mail.
 */
module Uploader {
  import opened Wrappers
  import opened Text
  import opened FieldExtractor

  /** A chosen file as far as the uploader looks at it: its MIME type and its
      name. */
  datatype File = File(mimeType: string, name: string)

  const PdfType: string := "application/pdf"

  /** `file.type === "application/pdf" || file.name.toLowerCase().endsWith(".pdf")`. */
  predicate IsPdf(f: File) {
    f.mimeType == PdfType || EndsWith(LowerAscii(f.name), ".pdf")
  }

  /** Lower-casing twice is lower-casing once. */
  lemma LowerAsciiIdempotent(s: string)
    ensures LowerAscii(LowerAscii(s)) == LowerAscii(s)
  {
    var l := LowerAscii(s);
    forall k | 0 <= k < |s| ensures LowerAscii(l)[k] == l[k] {
      assert l[k] == ToLower(s[k]);
    }
  }

  /** The name test ignores case: a file is accepted exactly when its type is
      the PDF type or its last four characters spell `.pdf` in any mix of
      cases. */
  lemma IsPdfIgnoresCase(t: string, name: string)
    ensures IsPdf(File(t, name)) <==> IsPdf(File(t, LowerAscii(name)))
    ensures IsPdf(File(t, name)) <==>
      t == PdfType
      || (|name| >= 4 && name[|name| - 4] == '.'
          && ToLower(name[|name| - 3]) == 'p' && ToLower(name[|name| - 2]) == 'd'
          && ToLower(name[|name| - 1]) == 'f')
  {
    LowerAsciiIdempotent(name);
    var l := LowerAscii(name);
    if |name| >= 4 {
      assert l[|l| - 4..] == [l[|l| - 4], l[|l| - 3], l[|l| - 2], l[|l| - 1]];
      assert ToLower(name[|name| - 4]) == '.' <==> name[|name| - 4] == '.';
    }
  }

  /** `CV.PDF` is accepted by its name; `cv.pdf.txt` and `cv.pd` are
      rejected unless their type says PDF. */
  lemma IsPdfExamples()
    ensures IsPdf(File("", "CV.PDF"))
    ensures !IsPdf(File("text/plain", "cv.pdf.txt"))
    ensures !IsPdf(File("", "cv.pd"))
    ensures IsPdf(File(PdfType, "scan"))
  {
    IsPdfIgnoresCase("", "CV.PDF");
    IsPdfIgnoresCase("text/plain", "cv.pdf.txt");
    IsPdfIgnoresCase("", "cv.pd");
  }

  /** The three editable inputs. */
  datatype Field = Name | Email | Phone

  /** `{ ...profile, [field]: value }`. */
  function WithField(p: Profile, field: Field, value: string): (q: Profile)
    ensures field == Name ==> q.name == value && q.email == p.email && q.phone == p.phone
    ensures field == Email ==> q.email == value && q.name == p.name && q.phone == p.phone
    ensures field == Phone ==> q.phone == value && q.name == p.name && q.email == p.email
  {
    match field
    case Name => p.(name := value)
    case Email => p.(email := value)
    case Phone => p.(phone := value)
  }

  /** The profile `handleUseDemo` fills in and confirms. */
  const Demo: Profile := Profile("Demo Candidate", "demo@example.com", "9999999999")

  class ResumeUploader {
    var profile: Profile
    var loading: bool
    var parsedText: string

    constructor ()
      ensures profile == Profile("", "", "") && !loading && parsedText == ""
    {
      profile := Profile("", "", "");
      loading := false;
      parsedText := "";
    }

    /** `handleFile`. A file that is not a PDF is turned away before any
        parsing and nothing changes. Otherwise `extracted` stands for the
        text the PDF reader produced, or `None` when it failed: on success
        the text is kept and all three extracted fields replace the profile's,
        empty ones included; on failure the profile and the kept text stay
        as they were. Loading is over either way. */
    method HandleFile(file: File, extracted: Option<string>)
      modifies this
      ensures !IsPdf(file) ==> unchanged(this)
      ensures IsPdf(file) && extracted.None? ==>
        profile == old(profile) && parsedText == old(parsedText) && !loading
      ensures IsPdf(file) && extracted.Some? ==>
        profile == FieldsOf(extracted.value) && parsedText == extracted.value && !loading
    {
      if !IsPdf(file) {
        return;
      }
      loading := true;
      match extracted {
        case Some(text) =>
          parsedText := text;
          var fields := ExtractFields(text);
          // `{ ...p, ...fields }`: the extractor sets all three keys
          profile := fields;
        case None =>
      }
      loading := false;
    }

    /** `handleInputChange(field)`: one input edits one field. */
    method HandleInputChange(field: Field, value: string)
      modifies this
      ensures profile == WithField(old(profile), field, value)
      ensures loading == old(loading) && parsedText == old(parsedText)
    {
      profile := WithField(profile, field, value);
    }

    /** `handleUseDemo`: the demo profile is filled in and confirmed. */
    method HandleUseDemo() returns (confirmed: Profile)
      modifies this
      ensures profile == Demo && confirmed == Demo
      ensures loading == old(loading) && parsedText == old(parsedText)
    {
      profile := Demo;
      confirmed := Demo;
    }

    /** `handleConfirm`: the profile goes on exactly when it has an e-mail,
        and goes on as it stands. */
    method HandleConfirm() returns (confirmed: Option<Profile>)
      ensures confirmed.Some? <==> profile.email != ""
      ensures confirmed.Some? ==> confirmed.value == profile
    {
      if profile.email == "" {
        return None;
      }
      confirmed := Some(profile);
    }
  }
}
