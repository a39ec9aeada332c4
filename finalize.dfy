/**
 * What happens when an interview ends (`handleFinish`,
 * src/pages/Interviewee.jsx:19-66): the answers are scored by the remote
 * scoring service when it answers, and by a length-based fallback scorer
 * otherwise; the result is shown and a candidate record is prepended to the
 * stored candidate list.
 */
module Finalization {
  import opened Wrappers
  import opened FieldExtractor

  /** One answer's fallback points: a point per full 20 characters, at most
      20 (`Math.min(20, Math.floor(l / 20))`). An empty answer scores 0. */
  function Points(a: string): (p: nat)
    ensures p <= 20 && 20 * p <= |a|
    ensures p < 20 ==> |a| < 20 * (p + 1)
  {
    if |a| / 20 < 20 then |a| / 20 else 20
  }

  /** The `reduce` that adds up the points, left to right. */
  function SumPoints(answers: seq<string>): nat {
    if answers == [] then 0
    else SumPoints(answers[..|answers| - 1]) + Points(answers[|answers| - 1])
  }

  /** The fallback score: the points capped at 100. */
  function FallbackScore(answers: seq<string>): (s: nat)
    ensures s <= 100
    ensures s <= 20 * |answers|
  {
    SumPointsBound(answers);
    var total := SumPoints(answers);
    if total < 100 then total else 100
  }

  /** No answer adds more than 20 points. */
  lemma {:induction false} SumPointsBound(answers: seq<string>)
    ensures SumPoints(answers) <= 20 * |answers|
  {
    if answers != [] {
      SumPointsBound(answers[..|answers| - 1]);
    }
  }

  /** A longer answer never scores fewer points. */
  lemma PointsMonotone(a: string, b: string)
    requires |a| <= |b|
    ensures Points(a) <= Points(b)
  {
    assert |a| / 20 <= |b| / 20;
  }

  /** Lengthening any answers never lowers the fallback score. */
  lemma {:induction false} FallbackMonotone(answers: seq<string>, longer: seq<string>)
    requires |answers| == |longer|
    requires forall i :: 0 <= i < |answers| ==> |answers[i]| <= |longer[i]|
    ensures SumPoints(answers) <= SumPoints(longer)
    ensures FallbackScore(answers) <= FallbackScore(longer)
  {
    if answers != [] {
      var n := |answers| - 1;
      FallbackMonotone(answers[..n], longer[..n]);
      PointsMonotone(answers[n], longer[n]);
    }
  }

  function Filler(n: nat): (s: string)
    ensures |s| == n
  {
    seq(n, _ => 'x')
  }

  /** Six answers of 0, 20, 40, 100, 100 and 100 characters score
      0 + 1 + 2 + 5 + 5 + 5 = 18; six answers of 400 characters would score
      120 and are capped at 100. */
  lemma FallbackExamples()
    ensures FallbackScore([Filler(0), Filler(20), Filler(40), Filler(100), Filler(100), Filler(100)]) == 18
    ensures FallbackScore(seq(6, _ => Filler(400))) == 100
  {
    var a := [Filler(0), Filler(20), Filler(40), Filler(100), Filler(100), Filler(100)];
    assert SumPoints(a[..1]) == 0 by { assert a[..1][..0] == []; }
    assert SumPoints(a[..2]) == 1 by { assert a[..2][..1] == a[..1]; }
    assert SumPoints(a[..3]) == 3 by { assert a[..3][..2] == a[..2]; }
    assert SumPoints(a[..4]) == 8 by { assert a[..4][..3] == a[..3]; }
    assert SumPoints(a[..5]) == 13 by { assert a[..5][..4] == a[..4]; }
    assert SumPoints(a) == 18 by { assert a[..5] == a[..|a| - 1]; }
    var b := seq(6, _ => Filler(400));
    forall i | 0 <= i < 6 ensures Points(b[i]) == 20 { }
    assert SumPoints(b[..1]) == 20 by { assert b[..1][..0] == []; }
    assert SumPoints(b[..2]) == 40 by { assert b[..2][..1] == b[..1]; }
    assert SumPoints(b[..3]) == 60 by { assert b[..3][..2] == b[..2]; }
    assert SumPoints(b[..4]) == 80 by { assert b[..4][..3] == b[..3]; }
    assert SumPoints(b[..5]) == 100 by { assert b[..5][..4] == b[..4]; }
    assert SumPoints(b) == 120 by { assert b[..5] == b[..|b| - 1]; }
  }

  const FallbackSummary: string := "Dummy summary generated (no scoring API)."

  /** What the remote scoring call came back with: a score and a summary
      from an ok response, or a failure (a non-ok status, a network error or
      an unreadable body). */
  datatype RemoteOutcome = Scored(score: int, summary: string) | Failed

  /** The result the page shows when the interview is over. */
  datatype Outcome = Outcome(score: int, summary: string, answers: seq<string>)

  /** The remote score and summary are taken as they come, unclamped; any
      failure falls back to the length-based score, which lies in 0..100,
      and the fixed summary. */
  function Assess(answers: seq<string>, remote: RemoteOutcome): (o: Outcome)
    ensures o.answers == answers
    ensures remote.Scored? ==> o.score == remote.score && o.summary == remote.summary
    ensures remote.Failed? ==>
      0 <= o.score <= 100 && o.score == FallbackScore(answers) && o.summary == FallbackSummary
  {
    match remote
    case Scored(score, summary) => Outcome(score, summary, answers)
    case Failed => Outcome(FallbackScore(answers), FallbackSummary, answers)
  }

  /** `profile.name || profile.email || "Unknown"`: never empty. */
  function RecordName(p: Profile): (n: string)
    ensures n != ""
    ensures n == p.name || n == p.email || n == "Unknown"
    ensures p.name != "" ==> n == p.name
    ensures p.name == "" && p.email != "" ==> n == p.email
  {
    if p.name != "" then p.name
    else if p.email != "" then p.email
    else "Unknown"
  }

  /** A stored candidate (the id and the timestamps are left out). */
  datatype Candidate = Candidate(name: string, email: string, phone: string,
                                 score: int, summary: string, answers: seq<string>)

  /** The record saved for a finished interview: contact fields copied from
      the profile, and the score, summary and answers of the outcome. */
  function CandidateRecord(p: Profile, o: Outcome): (c: Candidate)
    ensures c.name == RecordName(p) && c.email == p.email && c.phone == p.phone
    ensures c.score == o.score && c.summary == o.summary && c.answers == o.answers
  {
    Candidate(RecordName(p), p.email, p.phone, o.score, o.summary, o.answers)
  }

  /** The `Interviewee` page: the confirmed profile, the final result once
      there is one, and the stored candidate list, newest first. */
  class IntervieweePage {
    var profile: Option<Profile>
    var finished: Option<Outcome>
    ghost var candidates: seq<Candidate>

    constructor (stored: seq<Candidate>)
      ensures profile == None && finished == None && candidates == stored
    {
      profile := None;
      finished := None;
      candidates := stored;
    }

    /** `handleConfirmProfile`: the uploader's confirmed fields become the
        profile. */
    method HandleConfirmProfile(fields: Profile)
      modifies this
      ensures profile == Some(fields)
      ensures finished == old(finished) && candidates == old(candidates)
    {
      profile := Some(fields);
    }

    /** `handleFinish`: the outcome is recorded and shown whether or not the
        scoring service answered, and exactly one record is prepended to the
        stored candidates. The method has no failure path: no error escapes
        it. */
    method HandleFinish(answers: seq<string>, remote: RemoteOutcome)
      requires profile.Some?
      modifies this
      ensures profile == old(profile)
      ensures finished == Some(Assess(answers, remote))
      ensures candidates == [CandidateRecord(profile.value, Assess(answers, remote))] + old(candidates)
    {
      var o := Assess(answers, remote);
      finished := Some(o);
      candidates := [CandidateRecord(profile.value, o)] + candidates;
    }
  }
}
