/**
 * The timed interview controller of `InterviewChat`
 * (src/components/InterviewChat.jsx:9-107): six fixed questions, one answer
 * slot per question, a countdown per question that auto-submits at zero, a
 * pause toggle, and a persisted snapshot that lets an unfinished interview
 * be resumed or started afresh.
 */
module InterviewSession {
  import opened Wrappers
  import opened Text
  import opened FieldExtractor

  datatype Question = Question(text: string, level: string)

  /** `QUESTIONS`: two easy, two medium and two hard questions. */
  const Questions: seq<Question> := [
    Question("Explain props vs state in React.", "easy"),
    Question("What is event delegation in JavaScript?", "easy"),
    Question("How would you optimize a slow React app?", "medium"),
    Question("Explain closure in JS with an example.", "medium"),
    Question("Design a rate limiter for API requests.", "hard"),
    Question("How to scale a Node.js app for high concurrency?", "hard")
  ]

  /** `QUESTIONS.length`. */
  const QuestionCount: nat := 6

  /** What a blank answer becomes when the timer submits it. */
  const TimedOut: string := "(no answer - timed out)"

  /** `secondsForLevel`: the time budget of a difficulty level. */
  function SecondsForLevel(level: string): (s: nat)
    ensures s == 20 || s == 60 || s == 120
    ensures s == 20 <==> level == "easy"
    ensures s == 60 <==> level == "medium"
  {
    if level == "easy" then 20
    else if level == "medium" then 60
    else 120
  }

  /** The time budget of question `i`. */
  function Budget(i: nat): (s: nat)
    requires i < QuestionCount
    ensures s > 0
  {
    SecondsForLevel(Questions[i].level)
  }

  /** The budgets are 20, 20, 60, 60, 120 and 120 seconds, so a later
      question never has less time than an earlier one. */
  lemma Budgets()
    ensures |Questions| == QuestionCount
    ensures Budget(0) == 20 && Budget(1) == 20 && Budget(2) == 60
    ensures Budget(3) == 60 && Budget(4) == 120 && Budget(5) == 120
    ensures forall i: nat, j: nat :: i <= j < QuestionCount ==> Budget(i) <= Budget(j)
  {
    assert Questions[0].level == "easy" && Questions[1].level == "easy";
    assert Questions[2].level == "medium" && Questions[3].level == "medium";
    assert Questions[4].level == "hard" && Questions[5].level == "hard";
  }

  /** `!a || a.trim() === ""`. */
  predicate IsBlank(a: string) {
    a == "" || Trim(a) == ""
  }

  /** The answer a submit stores for the current slot: a blank answer
      (whitespace only) becomes the timed-out marker when the timer submits
      and `""` when the candidate does; anything else is kept exactly. */
  function Settled(a: string, isAuto: bool): (r: string)
    ensures !isAuto ==> |r| <= |a|
  {
    if All(a, IsWhitespace) then (if isAuto then TimedOut else "") else a
  }

  /** The source tests blankness with `trim()`; that test picks out exactly
      the whitespace-only answers, so the settled answer is the one the
      source stores. */
  lemma SettledByTrimTest(a: string, isAuto: bool)
    ensures Settled(a, isAuto) == (if IsBlank(a) then (if isAuto then TimedOut else "") else a)
  {
    TrimEmptyIffBlank(a);
  }

  /** After a timed-out submit the slot is never blank, and a non-blank
      answer is never altered. */
  lemma SettledNeverBlankOnTimeout(a: string)
    ensures !IsBlank(Settled(a, true))
    ensures !IsBlank(a) ==> Settled(a, true) == a && Settled(a, false) == a
  {
    SettledByTrimTest(a, true);
    SettledByTrimTest(a, false);
    if All(a, IsWhitespace) {
      NotBlankWhenFirstShows(TimedOut);
    } else {
      TrimEmptyIffBlank(a);
    }
  }

  /** A string whose first character is not whitespace is not blank. */
  lemma NotBlankWhenFirstShows(x: string)
    requires x != [] && !IsWhitespace(x[0])
    ensures !IsBlank(x)
  {
    TrimEmptyIffBlank(x);
  }

  /** The answers once a submit has settled slot `i`: what the controller
      holds after the submit. */
  function SettleCurrent(before: seq<string>, i: nat, isAuto: bool): (h: seq<string>)
    requires i < |before|
    ensures |h| == |before|
    ensures forall k :: 0 <= k < |h| && k != i ==> h[k] == before[k]
  {
    before[i := Settled(before[i], isAuto)]
  }

  /** After a submit the current slot is never blank if the timer submitted
      it, is blank exactly when the typed answer was if the candidate did,
      and holds a non-blank answer unaltered. */
  lemma SettleCurrentSlot(before: seq<string>, i: nat, isAuto: bool)
    requires i < |before|
    ensures isAuto ==> !IsBlank(SettleCurrent(before, i, isAuto)[i])
    ensures !isAuto ==> (IsBlank(SettleCurrent(before, i, isAuto)[i]) <==> IsBlank(before[i]))
    ensures !IsBlank(before[i]) ==> SettleCurrent(before, i, isAuto)[i] == before[i]
  {
    SettledNeverBlankOnTimeout(before[i]);
    SettledByTrimTest(before[i], isAuto);
    assert IsBlank("");
  }

  /** The finishing submit hands off the answers from before its own settle
      (`onFinish(answers)` reads the submitting render's `answers`): a last
      question left blank and timed out is handed off as `""`, while the
      controller itself holds the timed-out marker in that slot. */
  lemma HandoffMissesLastSettle()
    ensures var before := seq(QuestionCount, _ => "");
      before[5] == "" && SettleCurrent(before, 5, true)[5] == TimedOut
      && SettleCurrent(before, 5, true) != before
  {
    var before := seq(QuestionCount, _ => "");
    assert All(before[5], IsWhitespace);
    assert SettleCurrent(before, 5, true)[5] != before[5];
  }

  /** `Math.round(index / QUESTIONS.length * 100)` in integers: the nearest
      whole percentage, halves rounded up. */
  function ProgressPercent(index: nat): (p: nat)
    ensures 100 * index - 3 < 6 * p <= 100 * index + 3
    ensures index < QuestionCount ==> p < 100
  {
    (200 * index + 6) / 12
  }

  /** The snapshot `saveSession` writes (the timestamp is left out). */
  datatype Snapshot = Snapshot(sessionId: string, profile: Profile, index: nat,
                               answers: seq<string>, timeLeft: int)

  /** A snapshot as `loadSession` hands it back: every field may be missing,
      and `??` falls back to a default for each missing one. */
  datatype Saved = Saved(sessionId: Option<string>, index: Option<nat>,
                         answers: Option<seq<string>>, timeLeft: Option<int>)

  function OrElse<T>(o: Option<T>, d: T): (r: T)
    ensures o.Some? ==> r == o.value
    ensures o.None? ==> r == d
  {
    if o.Some? then o.value else d
  }

  /** A saved snapshot this controller can resume: its question index is on
      the question list, and its answers (if any) have one slot per
      question. */
  predicate Resumable(saved: Option<Saved>) {
    saved.Some? ==>
      (saved.value.index.Some? ==> saved.value.index.value < QuestionCount)
      && (saved.value.answers.Some? ==> |saved.value.answers.value| == QuestionCount)
  }

  class Session {
    var sessionId: string
    var profile: Profile
    var index: nat
    var answers: seq<string>
    var timeLeft: int
    var running: bool
    var showWelcome: bool
    /** The session slot of local storage: the last snapshot saved, or
        nothing once the session is cleared. */
    ghost var stored: Option<Snapshot>

    ghost predicate Valid()
      reads this
    {
      index < QuestionCount && |answers| == QuestionCount
    }

    function Snap(): Snapshot
      reads this
    {
      Snapshot(sessionId, profile, index, answers, timeLeft)
    }

    /** Mounting the component: every field comes from the saved snapshot
        when it has one, else from its default (`freshId` stands for a new
        `uuidv4()`). A restored session waits paused behind the welcome
        dialog; a new one starts running. The snapshot is then saved. */
    constructor Init(saved: Option<Saved>, freshId: string, profile: Profile)
      requires Resumable(saved)
      ensures Valid()
      ensures this.profile == profile
      ensures saved.None? ==>
        sessionId == freshId && index == 0 && answers == seq(QuestionCount, _ => "")
        && timeLeft == Budget(0) && running && !showWelcome
      ensures saved.Some? ==>
        var s := saved.value;
        sessionId == OrElse(s.sessionId, freshId)
        && index == OrElse(s.index, 0)
        && answers == OrElse(s.answers, seq(QuestionCount, _ => ""))
        && timeLeft == OrElse(s.timeLeft, Budget(index))
        && !running && showWelcome
      ensures stored == Some(Snap())
    {
      var s := OrElse(saved, Saved(None, None, None, None));
      var id := OrElse(s.sessionId, freshId);
      var i := OrElse(s.index, 0);
      var ans := OrElse(s.answers, seq(QuestionCount, _ => ""));
      var t := OrElse(s.timeLeft, Budget(i));
      sessionId := id;
      this.profile := profile;
      index := i;
      answers := ans;
      timeLeft := t;
      running := saved.None?;
      showWelcome := saved.Some?;
      stored := Some(Snapshot(id, profile, i, ans, t));
    }

    /** `handleSubmit(isAuto)`: the timer stops and the current slot is
        settled. Before the last question the controller moves to the next
        question with that question's full budget and restarts the timer; on
        the last it clears the saved session, stays on the last question,
        and hands off the answers as they were before this submit
        (`HandoffMissesLastSettle`). */
    method Submit(isAuto: bool) returns (handoff: Option<seq<string>>)
      requires Valid()
      modifies this
      ensures Valid()
      ensures answers == SettleCurrent(old(answers), old(index), isAuto)
      ensures sessionId == old(sessionId) && profile == old(profile)
      ensures showWelcome == old(showWelcome)
      ensures old(index) + 1 < QuestionCount ==>
        index == old(index) + 1 && timeLeft == Budget(index) && running
        && handoff == None && stored == Some(Snap())
      ensures old(index) + 1 >= QuestionCount ==>
        index == old(index) && timeLeft == old(timeLeft) && !running
        && handoff == Some(old(answers)) && stored == None
    {
      running := false;
      var prev := answers;
      answers := SettleCurrent(prev, index, isAuto);
      var next := index + 1;
      if next >= QuestionCount {
        stored := None;
        handoff := Some(prev);
        return;
      }
      index := next;
      timeLeft := Budget(next);
      running := true;
      stored := Some(Snap());
      handoff := None;
    }

    /** The auto-submit effect: it submits, as a timed-out submit, exactly
        when the timer is running and has reached zero. */
    method CheckTimeout() returns (handoff: Option<seq<string>>)
      requires Valid()
      modifies this
      ensures Valid()
      ensures !(old(running) && old(timeLeft) <= 0) ==>
        handoff == None && unchanged(this)
      ensures old(running) && old(timeLeft) <= 0 ==>
        answers == SettleCurrent(old(answers), old(index), true)
        && sessionId == old(sessionId) && profile == old(profile)
        && showWelcome == old(showWelcome)
        && (old(index) + 1 < QuestionCount ==>
              index == old(index) + 1 && timeLeft == Budget(index) && running
              && handoff == None && stored == Some(Snap()))
        && (old(index) + 1 >= QuestionCount ==>
              index == old(index) && timeLeft == old(timeLeft) && !running
              && handoff == Some(old(answers)) && stored == None)
    {
      if running && timeLeft <= 0 {
        handoff := Submit(true);
      } else {
        handoff := None;
      }
    }

    /** One second of the interval timer: while running the countdown drops
        by one and is saved, and the auto-submit check follows. A paused
        timer does not move. */
    method Tick() returns (handoff: Option<seq<string>>)
      requires Valid()
      modifies this
      ensures Valid()
      ensures sessionId == old(sessionId) && profile == old(profile)
      ensures showWelcome == old(showWelcome)
      ensures !old(running) ==> handoff == None && unchanged(this)
      ensures old(running) && old(timeLeft) > 1 ==>
        timeLeft == old(timeLeft) - 1 && running && handoff == None
        && index == old(index) && answers == old(answers) && stored == Some(Snap())
      ensures old(running) && old(timeLeft) <= 1 ==>
        answers == SettleCurrent(old(answers), old(index), true)
        && sessionId == old(sessionId) && profile == old(profile)
        && showWelcome == old(showWelcome)
        && (old(index) + 1 < QuestionCount ==>
              index == old(index) + 1 && timeLeft == Budget(index) && running
              && handoff == None && stored == Some(Snap()))
        && (old(index) + 1 >= QuestionCount ==>
              index == old(index) && timeLeft == old(timeLeft) - 1 && !running
              && handoff == Some(old(answers)) && stored == None)
    {
      if running {
        timeLeft := timeLeft - 1;
        stored := Some(Snap());
      }
      handoff := CheckTimeout();
    }

    /** The Pause / Resume button flips `running` and nothing else. */
    method TogglePause()
      requires Valid()
      modifies this
      ensures Valid()
      ensures running == !old(running)
      ensures index == old(index) && answers == old(answers) && timeLeft == old(timeLeft)
      ensures sessionId == old(sessionId) && profile == old(profile)
      ensures showWelcome == old(showWelcome) && stored == old(stored)
    {
      running := !running;
    }

    /** `handleChange`: typing replaces the current slot only. */
    method SetAnswer(value: string)
      requires Valid()
      modifies this
      ensures Valid()
      ensures answers == old(answers)[old(index) := value]
      ensures index == old(index) && timeLeft == old(timeLeft) && running == old(running)
      ensures sessionId == old(sessionId) && profile == old(profile)
      ensures showWelcome == old(showWelcome)
      ensures stored == Some(Snap())
    {
      answers := answers[index := value];
      stored := Some(Snap());
    }

    /** `resumeSession`: the welcome dialog closes and the timer runs; the
        question and the answers are kept, and the countdown is reset to the
        question's budget only when it is zero. */
    method ResumeSession()
      requires Valid()
      modifies this
      ensures Valid()
      ensures !showWelcome && running
      ensures index == old(index) && answers == old(answers)
      ensures sessionId == old(sessionId) && profile == old(profile)
      ensures timeLeft == (if old(timeLeft) == 0 then Budget(index) else old(timeLeft))
      ensures timeLeft != 0
      ensures old(timeLeft) == 0 ==> stored == Some(Snap())
      ensures old(timeLeft) != 0 ==> stored == old(stored)
    {
      showWelcome := false;
      running := true;
      if timeLeft == 0 {
        timeLeft := Budget(index);
        stored := Some(Snap());
      }
    }

    /** `startFresh`: the saved session is cleared, the interview restarts at
        the first question with every slot empty and its full budget, and
        the new state is saved again. */
    method StartFresh()
      requires Valid()
      modifies this
      ensures Valid()
      ensures index == 0 && answers == seq(QuestionCount, _ => "")
      ensures timeLeft == 20 && running && !showWelcome
      ensures sessionId == old(sessionId) && profile == old(profile)
      ensures stored == Some(Snap())
    {
      stored := None;
      showWelcome := false;
      index := 0;
      answers := seq(QuestionCount, _ => "");
      Budgets();
      timeLeft := Budget(0);
      running := true;
      stored := Some(Snap());
    }
  }
}
