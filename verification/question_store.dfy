/** The two tables `simple_questions` and `simple_guesses` as one mutable
    store, and the three writing operations of the service as methods on it.
    Each method does what the service function does, step by step, and is
    proved to agree with the matching pure function of `Questions`. */
module QuestionStore {
  import opened Wrappers
  import opened Questions
  import opened QuestionProperties

  class Store {
    var questions: seq<Question>
    var guesses: seq<Guess>

    ghost predicate Valid()
      reads this
    {
      StoreInvariant(questions, guesses)
    }

    /** An empty database. */
    constructor ()
      ensures Valid()
      ensures questions == [] && guesses == []
    {
      questions := [];
      guesses := [];
    }

    /** `createQuestion`: validate, insert with the database's fresh `id`
        and `created_at`, answer with the id and its short form. */
    method CreateQuestion(input: CreateQuestionInput, newId: string, now: Timestamp) returns (result: Result<Created, Error>)
      requires Valid()
      modifies this
      ensures Valid()
      ensures CreateStep(result, questions) == Create(old(questions), input, newId, now)
      ensures guesses == old(guesses)
    {
      CreatePreservesInvariant(questions, guesses, input, newId, now);
      var invalid := ValidateCreate(input);
      if invalid.Some? {
        return Failure(invalid.value);
      }
      if IdTaken(questions, newId) {
        return Failure(CreateFailed);
      }
      var q := NewQuestion(input, newId, now);
      questions := questions + [q];
      result := Success(Created(q.id, ShortId(q.id)));
    }

    /** `submitGuess`: resolve the question, check the range, insert. */
    method SubmitGuess(input: SubmitGuessInput, newId: string, now: Timestamp) returns (result: Result<GuessReceipt, Error>)
      requires Valid()
      modifies this
      ensures Valid()
      ensures SubmitStep(result, guesses) == Submit(old(questions), old(guesses), input, newId, now)
      ensures questions == old(questions)
    {
      SubmitPreservesInvariant(questions, guesses, input, newId, now);
      var resolved := Resolve(questions, input.questionId);
      if resolved.Failure? {
        return Failure(resolved.error);
      }
      var q := resolved.value;
      if input.value < q.minValue || input.value > q.maxValue {
        return Failure(ValueOutOfRange(q.minValue, q.maxValue));
      }
      if GuessIdTaken(guesses, newId) {
        return Failure(SubmitFailed);
      }
      var name := TrimmedOrNull(input.name);
      guesses := guesses + [Guess(newId, q.id, input.value, name, Some(now))];
      result := Success(GuessReceipt(newId, input.value, name));
    }

    /** `revealAnswer`: resolve, answer at once if already revealed, else
        pass the creator-or-PIN gate and stamp `revealed_at`. */
    method RevealAnswer(input: RevealAnswerInput, now: Timestamp) returns (result: Result<int, Error>)
      requires Valid()
      modifies this
      ensures Valid()
      ensures RevealStep(result, questions) == Reveal(old(questions), input, now)
      ensures guesses == old(guesses)
    {
      RevealPreservesInvariant(questions, guesses, input, now);
      var resolved := Resolve(questions, input.questionId);
      if resolved.Failure? {
        return Failure(resolved.error);
      }
      var q := resolved.value;
      if q.revealedAt.Some? {
        return Success(q.trueAnswer);
      }
      if !IsCreator(q, input.discordUserId) {
        if q.revealPin.Some? {
          if input.pin.None? || input.pin == Some("") {
            return Failure(PinRequired);
          }
          if input.pin != q.revealPin {
            return Failure(InvalidPin);
          }
        }
      }
      questions := MarkRevealed(questions, q.id, now);
      result := Success(q.trueAnswer);
    }
  }
}
