/** What the simple-question service guarantees across operations: the
    table invariant every operation keeps, the one-way Open -> Revealed
    gate, and how the operations see each other's writes. */
module QuestionProperties {
  import opened Wrappers
  import opened Questions

  // ---------------------------------------------------------------------------
  // The table invariant
  // ---------------------------------------------------------------------------

  ghost predicate UniqueIds(qs: seq<Question>)
  {
    forall i, j :: 0 <= i < j < |qs| ==> qs[i].id != qs[j].id
  }

  ghost predicate UniqueGuessIds(gs: seq<Guess>)
  {
    forall i, j :: 0 <= i < j < |gs| ==> gs[i].id != gs[j].id
  }

  /** What `createQuestion` checks, and that a stored PIN is never empty. */
  ghost predicate WellFormed(q: Question)
  {
    q.minValue < q.maxValue && q.minValue <= q.trueAnswer <= q.maxValue && q.revealPin != Some("")
  }

  /** The guess belongs to a stored question and lay within its bounds. */
  ghost predicate GuessFits(qs: seq<Question>, g: Guess)
  {
    exists k :: 0 <= k < |qs| && qs[k].id == g.questionId && qs[k].minValue <= g.value <= qs[k].maxValue
  }

  ghost predicate StoreInvariant(qs: seq<Question>, gs: seq<Guess>)
  {
    && UniqueIds(qs)
    && (forall i :: 0 <= i < |qs| ==> WellFormed(qs[i]))
    && UniqueGuessIds(gs)
    && (forall i :: 0 <= i < |gs| ==> GuessFits(qs, gs[i]))
  }

  /** Questions created through `createQuestion` satisfy the invariant. */
  lemma CreatePreservesInvariant(qs: seq<Question>, gs: seq<Guess>, input: CreateQuestionInput, newId: string, now: Timestamp)
    requires StoreInvariant(qs, gs)
    ensures StoreInvariant(Create(qs, input, newId, now).questions, gs)
  {
    var step := Create(qs, input, newId, now);
    if step.result.Success? {
      var qs' := step.questions;
      assert qs' == qs + [qs'[|qs|]];
      forall i | 0 <= i < |gs| ensures GuessFits(qs', gs[i]) {
        var k :| 0 <= k < |qs| && qs[k].id == gs[i].questionId && qs[k].minValue <= gs[i].value <= qs[k].maxValue;
        assert qs'[k] == qs[k];
      }
    }
  }

  /** Guesses inserted through `submitGuess` satisfy the invariant. */
  lemma SubmitPreservesInvariant(qs: seq<Question>, gs: seq<Guess>, input: SubmitGuessInput, newId: string, now: Timestamp)
    requires StoreInvariant(qs, gs)
    ensures StoreInvariant(qs, Submit(qs, gs, input, newId, now).guesses)
  {
    var step := Submit(qs, gs, input, newId, now);
    if step.result.Success? {
      var q := Resolve(qs, input.questionId).value;
      var k :| 0 <= k < |qs| && qs[k] == q;
      assert GuessFits(qs, step.guesses[|gs|]);
    }
  }

  /** The reveal only stamps `revealed_at`, so it keeps the invariant. */
  lemma RevealPreservesInvariant(qs: seq<Question>, gs: seq<Guess>, input: RevealAnswerInput, now: Timestamp)
    requires StoreInvariant(qs, gs)
    ensures StoreInvariant(Reveal(qs, input, now).questions, gs)
  {
    var qs' := Reveal(qs, input, now).questions;
    forall i | 0 <= i < |gs| ensures GuessFits(qs', gs[i]) {
      var k :| 0 <= k < |qs| && qs[k].id == gs[i].questionId && qs[k].minValue <= gs[i].value <= qs[k].maxValue;
      assert qs'[k].id == qs[k].id && qs'[k].minValue == qs[k].minValue && qs'[k].maxValue == qs[k].maxValue;
    }
  }

  // ---------------------------------------------------------------------------
  // Resolution sees only identifiers
  // ---------------------------------------------------------------------------

  /** Stamping a reveal does not change which row an identifier resolves to;
      the row found is the stamped one. */
  lemma ResolveAfterMark(qs: seq<Question>, id: string, now: Timestamp, questionId: string)
    ensures var qs' := MarkRevealed(qs, id, now);
      match Resolve(qs, questionId)
      case Failure(e) => Resolve(qs', questionId) == Failure(e)
      case Success(q) =>
        Resolve(qs', questionId) == Success(if q.id == id then q.(revealedAt := Some(now)) else q)
  {
    var qs' := MarkRevealed(qs, id, now);
    MatchesById(qs, qs', questionId);
    var r := Resolve(qs, questionId);
    if r.Success? {
      var k :| 0 <= k < |qs| && qs[k] == r.value;
      assert Matches(qs'[k], questionId);
    }
  }

  /** Matching looks only at identifiers, so two tables with the same ids
      row by row have the same matches. */
  lemma MatchesById(qs: seq<Question>, qs': seq<Question>, questionId: string)
    requires |qs'| == |qs| && forall i :: 0 <= i < |qs| ==> qs'[i].id == qs[i].id
    ensures NoMatch(qs', questionId) <==> NoMatch(qs, questionId)
    ensures SeveralMatch(qs', questionId) <==> SeveralMatch(qs, questionId)
  {
    assert forall i :: 0 <= i < |qs| ==> (Matches(qs'[i], questionId) <==> Matches(qs[i], questionId));
    if SeveralMatch(qs, questionId) {
      var i, j :| 0 <= i < j < |qs| && Matches(qs[i], questionId) && Matches(qs[j], questionId);
      assert Matches(qs'[i], questionId) && Matches(qs'[j], questionId);
    }
    if SeveralMatch(qs', questionId) {
      var i, j :| 0 <= i < j < |qs'| && Matches(qs'[i], questionId) && Matches(qs'[j], questionId);
      assert Matches(qs[i], questionId) && Matches(qs[j], questionId);
    }
  }

  // ---------------------------------------------------------------------------
  // The reveal gate: Open -> Revealed, one way
  // ---------------------------------------------------------------------------

  /** Revealing again after a successful reveal, with any PIN, caller and
      clock, answers the same and writes nothing. */
  lemma RevealIdempotent(qs: seq<Question>, input: RevealAnswerInput, now: Timestamp, again: RevealAnswerInput, later: Timestamp)
    requires again.questionId == input.questionId
    requires Reveal(qs, input, now).result.Success?
    ensures var first := Reveal(qs, input, now);
      Reveal(first.questions, again, later) == first
  {
    var q := Resolve(qs, input.questionId).value;
    if q.revealedAt.None? {
      ResolveAfterMark(qs, q.id, now, input.questionId);
    }
  }

  /** A successful reveal changes only the resolved question, and of it only
      `revealed_at`, from null to `now`; a question already revealed keeps
      its timestamp, and a failed reveal changes nothing. */
  lemma RevealStampsOnlyTarget(qs: seq<Question>, input: RevealAnswerInput, now: Timestamp)
    requires UniqueIds(qs)
    ensures var step := Reveal(qs, input, now);
      && |step.questions| == |qs|
      && (forall i :: 0 <= i < |qs| && qs[i].revealedAt.Some? ==> step.questions[i] == qs[i])
      && (forall i :: 0 <= i < |qs| && step.questions[i] != qs[i] ==>
            && step.result.Success?
            && qs[i] == Resolve(qs, input.questionId).value
            && step.questions[i] == qs[i].(revealedAt := Some(now)))
  {
    var step := Reveal(qs, input, now);
    var r := Resolve(qs, input.questionId);
    if r.Success? && r.value.revealedAt.None? && step.result.Success? {
      var k :| 0 <= k < |qs| && qs[k] == r.value;
      assert forall i :: 0 <= i < |qs| && qs[i].id == r.value.id ==> i == k;
    }
  }

  /** A question without a PIN is revealed whatever PIN is supplied. */
  lemma RevealWithoutPinSucceeds(qs: seq<Question>, input: RevealAnswerInput, now: Timestamp)
    requires Resolve(qs, input.questionId).Success?
    requires Resolve(qs, input.questionId).value.revealPin.None?
    ensures Reveal(qs, input, now).result == Success(Resolve(qs, input.questionId).value.trueAnswer)
  {
  }

  /** The creator's Discord id passes the gate even when a PIN is set and
      none is supplied. */
  lemma CreatorBypassesPin(qs: seq<Question>, input: RevealAnswerInput, now: Timestamp)
    requires Resolve(qs, input.questionId).Success?
    requires IsCreator(Resolve(qs, input.questionId).value, input.discordUserId)
    ensures Reveal(qs, input, now).result == Success(Resolve(qs, input.questionId).value.trueAnswer)
  {
  }

  /** Once revealed, the read view shows the true answer. */
  lemma RevealThenViewShowsAnswer(qs: seq<Question>, gs: seq<Guess>, input: RevealAnswerInput, now: Timestamp)
    requires Reveal(qs, input, now).result.Success?
    ensures var step := Reveal(qs, input, now);
      var page := GetQuestion(step.questions, gs, input.questionId);
      page.Success? && page.value.question.revealed
      && page.value.question.trueAnswer == Some(step.result.value)
  {
    var q := Resolve(qs, input.questionId).value;
    if q.revealedAt.None? {
      ResolveAfterMark(qs, q.id, now, input.questionId);
    }
  }

  // ---------------------------------------------------------------------------
  // Creation and guesses as seen by the other operations
  // ---------------------------------------------------------------------------

  /** A created question is found again by its full id, when that is longer
      than 8 characters, and by its short id when no other question's id
      starts with the same 7 characters. */
  lemma CreatedQuestionResolves(qs: seq<Question>, input: CreateQuestionInput, newId: string, now: Timestamp)
    requires Create(qs, input, newId, now).result.Success?
    ensures var step := Create(qs, input, newId, now);
      var q := NewQuestion(input, newId, now);
      && (|newId| > PrefixLookupMaxLength ==> Resolve(step.questions, newId) == Success(q))
      && ((forall i :: 0 <= i < |qs| ==> !(ShortId(newId) <= qs[i].id)) ==>
            Resolve(step.questions, step.result.value.shortId) == Success(q))
  {
    var step := Create(qs, input, newId, now);
    var q := NewQuestion(input, newId, now);
    var qs' := step.questions;
    assert qs' == qs + [q];
    assert Matches(qs'[|qs|], newId);
    if |newId| > PrefixLookupMaxLength {
      assert forall i :: 0 <= i < |qs| ==> qs[i].id != newId;
      assert forall i :: 0 <= i < |qs| ==> !Matches(qs'[i], newId);
      assert !SeveralMatch(qs', newId);
    }
    var short := ShortId(newId);
    assert Matches(qs'[|qs|], short);
    if forall i :: 0 <= i < |qs| ==> !(short <= qs[i].id) {
      assert forall i :: 0 <= i < |qs| ==> !Matches(qs'[i], short);
      assert !SeveralMatch(qs', short);
    }
  }

  lemma FilterAppend<T(!new)>(s: seq<T>, x: T, keep: T -> bool)
    requires keep(x)
    ensures Filter(s + [x], keep) == Filter(s, keep) + [x]
    decreases |s|
  {
    if |s| > 0 {
      assert (s + [x])[1..] == s[1..] + [x];
      FilterAppend(s[1..], x, keep);
    } else {
      assert s + [x] == [x];
    }
  }

  /** A guess accepted by `submitGuess` shows up in the question's read view,
      marked as made after the reveal exactly when it was. */
  lemma SubmittedGuessIsListed(qs: seq<Question>, gs: seq<Guess>, input: SubmitGuessInput, newId: string, now: Timestamp)
    requires Submit(qs, gs, input, newId, now).result.Success?
    ensures var q := Resolve(qs, input.questionId).value;
      var g := Guess(newId, q.id, input.value, TrimmedOrNull(input.name), Some(now));
      var page := GetQuestion(qs, Submit(qs, gs, input, newId, now).guesses, input.questionId);
      page.Success? && GuessViewOf(g, q.revealedAt) in multiset(page.value.guesses)
  {
    var q := Resolve(qs, input.questionId).value;
    var g := Guess(newId, q.id, input.value, TrimmedOrNull(input.name), Some(now));
    var gs' := gs + [g];
    FilterAppend(gs, g, (h: Guess) => h.questionId == q.id);
    var mine := GuessesFor(gs', q.id);
    assert mine[|mine| - 1] == g;
    assert GuessViews(mine, q.revealedAt)[|mine| - 1] == GuessViewOf(g, q.revealedAt);
  }

  /** Guesses stay open after the reveal: a revealed question still accepts
      an in-range guess. */
  lemma GuessAcceptedAfterReveal(qs: seq<Question>, gs: seq<Guess>, input: SubmitGuessInput, newId: string, now: Timestamp)
    requires Resolve(qs, input.questionId).Success?
    requires Resolve(qs, input.questionId).value.revealedAt.Some?
    requires Resolve(qs, input.questionId).value.minValue <= input.value <= Resolve(qs, input.questionId).value.maxValue
    requires !GuessIdTaken(gs, newId)
    ensures Submit(qs, gs, input, newId, now).result.Success?
  {
  }
}
