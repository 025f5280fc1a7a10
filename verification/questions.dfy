/** The simple-question service (src/lib/services/questions.ts): records,
    short-identifier resolution, the creation and guess validators, the
    reveal gate and the read view, all as pure functions over the two tables
    `simple_questions` and `simple_guesses`, given as sequences in insertion
    order. The state changes themselves are the methods of QuestionStore. */
module Questions {
  import opened Wrappers
  import opened Text

  /** `created_at` and `revealed_at`. The source stores ISO-8601 strings and
      compares them as strings, which for one format orders them in time. */
  type Timestamp = nat

  /** A row of `simple_questions`. */
  datatype Question = Question(
    id: string,
    title: string,
    description: Option<string>,
    minValue: int,
    maxValue: int,
    trueAnswer: int,
    revealPin: Option<string>,
    revealedAt: Option<Timestamp>,
    unit: Option<string>,
    isCurrency: bool,
    discordUserId: Option<string>,
    createdAt: Option<Timestamp>)

  /** A row of `simple_guesses`. */
  datatype Guess = Guess(
    id: string,
    questionId: string,
    value: int,
    name: Option<string>,
    createdAt: Option<Timestamp>)

  /** The error strings the service returns, one constructor each. */
  datatype Error =
    | TitleRequired                      // 'Title is required'
    | MinNotBelowMax                     // 'Min must be less than max'
    | AnswerOutOfRange                   // 'Answer must be between min and max'
    | CreateFailed                       // 'Failed to create question'
    | NotFound                           // 'Question not found'
    | Ambiguous                          // 'Ambiguous question ID'
    | ValueOutOfRange(min: int, max: int) // 'Value must be between {min} and {max}'
    | SubmitFailed                       // 'Failed to submit guess'
    | PinRequired                        // 'PIN required (or ask the question creator to reveal)'
    | InvalidPin                         // 'Invalid PIN'

  datatype CreateQuestionInput = CreateQuestionInput(
    title: string,
    description: Option<string>,
    minValue: int,
    maxValue: int,
    trueAnswer: int,
    unit: Option<string>,
    isCurrency: Option<bool>,
    revealPin: Option<string>,
    discordUserId: Option<string>)

  datatype Created = Created(id: string, shortId: string)

  datatype SubmitGuessInput = SubmitGuessInput(questionId: string, value: int, name: Option<string>)

  datatype GuessReceipt = GuessReceipt(id: string, value: int, name: Option<string>)

  datatype RevealAnswerInput = RevealAnswerInput(questionId: string, pin: Option<string>, discordUserId: Option<string>)

  datatype QuestionView = QuestionView(
    id: string,
    shortId: string,
    title: string,
    description: Option<string>,
    minValue: int,
    maxValue: int,
    revealed: bool,
    revealedAt: Option<Timestamp>,
    trueAnswer: Option<int>,
    unit: Option<string>,
    isCurrency: bool,
    hasPin: bool,
    discordUserId: Option<string>,
    createdAt: Option<Timestamp>)

  datatype GuessView = GuessView(
    id: string,
    value: int,
    name: Option<string>,
    createdAt: Option<Timestamp>,
    afterReveal: bool)

  datatype QuestionPage = QuestionPage(question: QuestionView, guesses: seq<GuessView>)

  /** Length of the shareable short identifier, `id.slice(0, 7)`. */
  const ShortIdLength: nat := 7

  /** Identifiers up to this length are looked up by prefix. The short
      identifier has 7 characters; the code's threshold is 8. */
  const PrefixLookupMaxLength: nat := 8

  // ---------------------------------------------------------------------------
  // JavaScript coercions used when a row is written
  // ---------------------------------------------------------------------------

  /** `s || null`. */
  function OrNull(s: Option<string>): (r: Option<string>)
    ensures r.None? <==> !Truthy(s)
    ensures r.Some? ==> r == s
  {
    if Truthy(s) then s else None
  }

  /** `s?.trim() || null`. */
  function TrimmedOrNull(s: Option<string>): (r: Option<string>)
    ensures r.None? <==> s.None? || AllSpace(s.value)
    ensures r.Some? ==> r.value == Trim(s.value) && r.value != ""
  {
    if s.Some? && Trim(s.value) != "" then Some(Trim(s.value)) else None
  }

  /** `id.slice(0, 7)`. */
  function ShortId(id: string): (r: string)
    ensures r <= id
    ensures |r| == if |id| < ShortIdLength then |id| else ShortIdLength
  {
    if |id| <= ShortIdLength then id else id[..ShortIdLength]
  }

  // ---------------------------------------------------------------------------
  // Filtering rows
  // ---------------------------------------------------------------------------

  /** The rows a query with a WHERE condition returns, in table order. */
  function Filter<T(!new)>(s: seq<T>, keep: T -> bool): (r: seq<T>)
    ensures |r| <= |s|
    ensures forall x :: x in r <==> x in s && keep(x)
  {
    if |s| == 0 then []
    else if keep(s[0]) then [s[0]] + Filter(s[1..], keep)
    else Filter(s[1..], keep)
  }

  /** A filter keeps every row that passes as often as the table has it, and
      no other row: the result is the passing part of the table, counted
      with multiplicity. */
  lemma {:induction false} FilterMultiset<T(!new)>(s: seq<T>, keep: T -> bool)
    ensures forall x :: multiset(Filter(s, keep))[x] == if keep(x) then multiset(s)[x] else 0
    decreases |s|
  {
    if |s| > 0 {
      assert s == [s[0]] + s[1..];
      FilterMultiset(s[1..], keep);
    }
  }

  /** A filter keeps nothing exactly when no position of the table passes. */
  lemma {:induction false} FilterNone<T(!new)>(s: seq<T>, keep: T -> bool)
    ensures |Filter(s, keep)| == 0 <==> forall i :: 0 <= i < |s| ==> !keep(s[i])
  {
    if |s| > 0 {
      FilterNone(s[1..], keep);
      assert forall i :: 1 <= i < |s| ==> s[i] == s[1..][i - 1];
    }
  }

  /** A filter keeps at least two rows exactly when two positions pass. */
  lemma FilterSeveral<T(!new)>(s: seq<T>, keep: T -> bool)
    ensures |Filter(s, keep)| >= 2 <==> exists i, j :: 0 <= i < j < |s| && keep(s[i]) && keep(s[j])
  {
    if |Filter(s, keep)| >= 2 {
      var i, j := FilterTwoPass(s, keep);
    }
    if exists i, j :: 0 <= i < j < |s| && keep(s[i]) && keep(s[j]) {
      var i, j :| 0 <= i < j < |s| && keep(s[i]) && keep(s[j]);
      TwoPassFilter(s, keep, i, j);
    }
  }

  /** Two positions that pass, found in a filter that keeps two rows. */
  lemma {:induction false} FilterTwoPass<T(!new)>(s: seq<T>, keep: T -> bool) returns (i: nat, j: nat)
    requires |Filter(s, keep)| >= 2
    ensures i < j < |s| && keep(s[i]) && keep(s[j])
  {
    var t := s[1..];
    if keep(s[0]) {
      assert Filter(s, keep) == [s[0]] + Filter(t, keep);
      var x := Filter(t, keep)[0];
      assert x in Filter(t, keep);
      var k :| 0 <= k < |t| && t[k] == x;
      i, j := 0, k + 1;
    } else {
      assert Filter(s, keep) == Filter(t, keep);
      var a, b := FilterTwoPass(t, keep);
      i, j := a + 1, b + 1;
    }
  }

  lemma {:induction false} TwoPassFilter<T(!new)>(s: seq<T>, keep: T -> bool, i: nat, j: nat)
    requires i < j < |s| && keep(s[i]) && keep(s[j])
    ensures |Filter(s, keep)| >= 2
  {
    var t := s[1..];
    assert s[j] == t[j - 1];
    if i == 0 {
      assert s[j] in Filter(t, keep);
    } else {
      assert s[i] == t[i - 1];
      TwoPassFilter(t, keep, i - 1, j - 1);
    }
  }

  /** When a filter keeps one row, every passing position holds that row. */
  lemma {:induction false} FilterOne<T(!new)>(s: seq<T>, keep: T -> bool)
    requires |Filter(s, keep)| == 1
    ensures forall i :: 0 <= i < |s| && keep(s[i]) ==> s[i] == Filter(s, keep)[0]
  {
    var t := s[1..];
    assert forall i :: 1 <= i < |s| ==> s[i] == t[i - 1];
    if keep(s[0]) {
      FilterNone(t, keep);
    } else {
      FilterOne(t, keep);
    }
  }

  lemma FilterCount<T(!new)>(s: seq<T>, keep: T -> bool)
    ensures |Filter(s, keep)| == 0 <==> forall i :: 0 <= i < |s| ==> !keep(s[i])
    ensures |Filter(s, keep)| >= 2 <==> exists i, j :: 0 <= i < j < |s| && keep(s[i]) && keep(s[j])
    ensures |Filter(s, keep)| == 1 ==> forall i :: 0 <= i < |s| && keep(s[i]) ==> s[i] == Filter(s, keep)[0]
  {
    FilterNone(s, keep);
    FilterSeveral(s, keep);
    if |Filter(s, keep)| == 1 {
      FilterOne(s, keep);
    }
  }

  // ---------------------------------------------------------------------------
  // resolveQuestion
  // ---------------------------------------------------------------------------

  /** Whether `q` answers the identifier `questionId`: by prefix when the
      identifier is at most 8 characters, by equality otherwise. */
  predicate Matches(q: Question, questionId: string)
  {
    if |questionId| <= PrefixLookupMaxLength then questionId <= q.id else q.id == questionId
  }

  predicate NoMatch(qs: seq<Question>, questionId: string)
  {
    forall i :: 0 <= i < |qs| ==> !Matches(qs[i], questionId)
  }

  predicate SeveralMatch(qs: seq<Question>, questionId: string)
  {
    exists i, j :: 0 <= i < j < |qs| && Matches(qs[i], questionId) && Matches(qs[j], questionId)
  }

  /** `resolveQuestion(questionId)`. A short identifier is looked up through
      `get_simple_question_by_prefix`, taken to return every question whose id
      starts with it; a longer one is an exact `.eq('id', …).single()` lookup,
      which fails unless exactly one row matches. */
  function Resolve(qs: seq<Question>, questionId: string): (r: Result<Question, Error>)
    ensures r.Success? <==> !NoMatch(qs, questionId) && !SeveralMatch(qs, questionId)
    ensures r == Failure(Ambiguous) <==> |questionId| <= PrefixLookupMaxLength && SeveralMatch(qs, questionId)
    ensures r == Failure(NotFound) <==>
      NoMatch(qs, questionId) || (|questionId| > PrefixLookupMaxLength && SeveralMatch(qs, questionId))
    ensures r.Success? ==>
      && r.value in qs
      && Matches(r.value, questionId)
      && forall i :: 0 <= i < |qs| && Matches(qs[i], questionId) ==> qs[i] == r.value
  {
    if |questionId| <= PrefixLookupMaxLength then
      var keep := (q: Question) => questionId <= q.id;
      var data := Filter(qs, keep);
      FilterCount(qs, keep);
      if |data| == 0 then Failure(NotFound)
      else if |data| > 1 then Failure(Ambiguous)
      else Success(data[0])
    else
      var keep := (q: Question) => q.id == questionId;
      var data := Filter(qs, keep);
      FilterCount(qs, keep);
      if |data| == 1 then Success(data[0]) else Failure(NotFound)
  }

  // ---------------------------------------------------------------------------
  // createQuestion
  // ---------------------------------------------------------------------------

  /** The checks `createQuestion` makes before writing, in order. (`isNaN`
      cannot fail on integers.) */
  function ValidateCreate(input: CreateQuestionInput): (e: Option<Error>)
    ensures e == None <==>
      !AllSpace(input.title) && input.minValue < input.maxValue
      && input.minValue <= input.trueAnswer <= input.maxValue
    ensures e == Some(TitleRequired) <==> AllSpace(input.title)
    ensures e == Some(MinNotBelowMax) <==> !AllSpace(input.title) && input.minValue >= input.maxValue
    ensures e == Some(AnswerOutOfRange) <==>
      !AllSpace(input.title) && input.minValue < input.maxValue
      && (input.trueAnswer < input.minValue || input.trueAnswer > input.maxValue)
  {
    if Trim(input.title) == "" then Some(TitleRequired)
    else if input.minValue >= input.maxValue then Some(MinNotBelowMax)
    else if input.trueAnswer < input.minValue || input.trueAnswer > input.maxValue then Some(AnswerOutOfRange)
    else None
  }

  /** Whether a row of `qs` already has the identifier `id`. */
  predicate IdTaken(qs: seq<Question>, id: string)
  {
    exists i :: 0 <= i < |qs| && qs[i].id == id
  }

  /** The row `createQuestion` inserts; `id` and `created_at` are the
      database defaults, passed in. */
  function NewQuestion(input: CreateQuestionInput, id: string, now: Timestamp): (q: Question)
    ensures q.id == id && q.title == Trim(input.title)
    ensures q.revealedAt == None && q.createdAt == Some(now)
    ensures q.revealPin.None? <==> !Truthy(input.revealPin)
    ensures q.revealPin.Some? ==> q.revealPin == input.revealPin
    ensures q.isCurrency <==> input.isCurrency == Some(true)
    ensures q.description == TrimmedOrNull(input.description) && q.unit == TrimmedOrNull(input.unit)
    ensures q.discordUserId == OrNull(input.discordUserId)
    ensures (q.minValue, q.maxValue, q.trueAnswer) == (input.minValue, input.maxValue, input.trueAnswer)
  {
    Question(
      id := id,
      title := Trim(input.title),
      description := TrimmedOrNull(input.description),
      minValue := input.minValue,
      maxValue := input.maxValue,
      trueAnswer := input.trueAnswer,
      revealPin := OrNull(input.revealPin),
      revealedAt := None,
      unit := TrimmedOrNull(input.unit),
      isCurrency := if input.isCurrency.Some? then input.isCurrency.value else false,
      discordUserId := OrNull(input.discordUserId),
      createdAt := Some(now))
  }

  datatype CreateStep = CreateStep(result: Result<Created, Error>, questions: seq<Question>)

  /** `createQuestion(input)` against the table `qs`, where `newId` is the
      identifier the database generates and `now` its clock. An insert whose
      identifier is already taken violates the primary key and fails. */
  function Create(qs: seq<Question>, input: CreateQuestionInput, newId: string, now: Timestamp): (step: CreateStep)
    ensures step.result.Failure? ==> step.questions == qs
    ensures step.result.Failure? <==> ValidateCreate(input).Some? || IdTaken(qs, newId)
    ensures ValidateCreate(input).Some? ==> step.result == Failure(ValidateCreate(input).value)
    ensures ValidateCreate(input).None? && IdTaken(qs, newId) ==> step.result == Failure(CreateFailed)
    ensures step.result.Success? ==>
      && |step.questions| == |qs| + 1
      && step.questions[..|qs|] == qs
      && step.questions[|qs|] == NewQuestion(input, newId, now)
      && step.result.value == Created(newId, ShortId(newId))
  {
    var invalid := ValidateCreate(input);
    if invalid.Some? then CreateStep(Failure(invalid.value), qs)
    else if IdTaken(qs, newId) then CreateStep(Failure(CreateFailed), qs)
    else
      var q := NewQuestion(input, newId, now);
      assert (qs + [q])[..|qs|] == qs;
      CreateStep(Success(Created(q.id, ShortId(q.id))), qs + [q])
  }

  // ---------------------------------------------------------------------------
  // submitGuess
  // ---------------------------------------------------------------------------

  /** The range check of `submitGuess`. */
  function CheckGuess(q: Question, value: int): (e: Option<Error>)
    ensures e.None? <==> q.minValue <= value <= q.maxValue
    ensures e.Some? ==> e.value == ValueOutOfRange(q.minValue, q.maxValue)
  {
    if value < q.minValue || value > q.maxValue then Some(ValueOutOfRange(q.minValue, q.maxValue))
    else None
  }

  predicate GuessIdTaken(gs: seq<Guess>, id: string)
  {
    exists i :: 0 <= i < |gs| && gs[i].id == id
  }

  datatype SubmitStep = SubmitStep(result: Result<GuessReceipt, Error>, guesses: seq<Guess>)

  /** `submitGuess(input)`: resolve, range-check, insert. Nothing here looks
      at whether the question has been revealed. */
  function Submit(qs: seq<Question>, gs: seq<Guess>, input: SubmitGuessInput, newId: string, now: Timestamp): (step: SubmitStep)
    ensures step.result.Failure? ==> step.guesses == gs
    ensures Resolve(qs, input.questionId).Failure? ==>
      step.result == Failure(Resolve(qs, input.questionId).error)
    ensures Resolve(qs, input.questionId).Success? ==>
      var q := Resolve(qs, input.questionId).value;
      && (step.result.Success? <==> q.minValue <= input.value <= q.maxValue && !GuessIdTaken(gs, newId))
      && (input.value < q.minValue || input.value > q.maxValue ==>
            step.result == Failure(ValueOutOfRange(q.minValue, q.maxValue)))
      && (q.minValue <= input.value <= q.maxValue && GuessIdTaken(gs, newId) ==>
            step.result == Failure(SubmitFailed))
      && (step.result.Success? ==>
            && step.guesses == gs + [Guess(newId, q.id, input.value, TrimmedOrNull(input.name), Some(now))]
            && step.result.value == GuessReceipt(newId, input.value, TrimmedOrNull(input.name)))
  {
    var resolved := Resolve(qs, input.questionId);
    if resolved.Failure? then SubmitStep(Failure(resolved.error), gs)
    else
      var q := resolved.value;
      var outOfRange := CheckGuess(q, input.value);
      if outOfRange.Some? then SubmitStep(Failure(outOfRange.value), gs)
      else if GuessIdTaken(gs, newId) then SubmitStep(Failure(SubmitFailed), gs)
      else
        var g := Guess(newId, q.id, input.value, TrimmedOrNull(input.name), Some(now));
        SubmitStep(Success(GuessReceipt(g.id, g.value, g.name)), gs + [g])
  }

  // ---------------------------------------------------------------------------
  // revealAnswer
  // ---------------------------------------------------------------------------

  /** The creator bypass: both Discord user ids present, non-empty and equal. */
  predicate IsCreator(q: Question, caller: Option<string>)
  {
    Truthy(caller) && Truthy(q.discordUserId) && caller.value == q.discordUserId.value
  }

  /** The reveal gate, consulted only for a question that is not yet revealed:
      the creator and questions without a PIN pass; otherwise a non-empty PIN
      equal to the stored one is needed. */
  function Authorize(q: Question, pin: Option<string>, caller: Option<string>): (e: Option<Error>)
    ensures e.None? <==>
      q.revealPin.None? || IsCreator(q, caller) || (Truthy(pin) && pin.value == q.revealPin.value)
    ensures e == Some(PinRequired) <==> q.revealPin.Some? && !IsCreator(q, caller) && !Truthy(pin)
    ensures e == Some(InvalidPin) <==>
      q.revealPin.Some? && !IsCreator(q, caller) && Truthy(pin) && pin.value != q.revealPin.value
  {
    if q.revealPin.Some? && !IsCreator(q, caller) then
      if !Truthy(pin) then Some(PinRequired)
      else if pin.value != q.revealPin.value then Some(InvalidPin)
      else None
    else None
  }

  /** `.update({ revealed_at: now }).eq('id', id)`: every row with that id
      gets the timestamp; nothing else changes. */
  function MarkRevealed(qs: seq<Question>, id: string, now: Timestamp): (r: seq<Question>)
    ensures |r| == |qs|
    ensures forall i :: 0 <= i < |qs| ==> r[i].id == qs[i].id
    ensures forall i :: 0 <= i < |qs| && qs[i].id != id ==> r[i] == qs[i]
    ensures forall i :: 0 <= i < |qs| && qs[i].id == id ==>
      r[i].revealedAt == Some(now) && r[i].(revealedAt := qs[i].revealedAt) == qs[i]
  {
    seq(|qs|, i requires 0 <= i < |qs| => if qs[i].id == id then qs[i].(revealedAt := Some(now)) else qs[i])
  }

  datatype RevealStep = RevealStep(result: Result<int, Error>, questions: seq<Question>)

  /** `revealAnswer(input)`: an already revealed question answers at once;
      otherwise the gate decides, and a successful reveal stamps `now`. */
  function Reveal(qs: seq<Question>, input: RevealAnswerInput, now: Timestamp): (step: RevealStep)
    ensures step.result.Failure? ==> step.questions == qs
    ensures Resolve(qs, input.questionId).Failure? ==>
      step.result == Failure(Resolve(qs, input.questionId).error)
    ensures Resolve(qs, input.questionId).Success? ==>
      var q := Resolve(qs, input.questionId).value;
      && (q.revealedAt.Some? ==> step == RevealStep(Success(q.trueAnswer), qs))
      && (q.revealedAt.None? ==>
            && (step.result.Failure? ==> Authorize(q, input.pin, input.discordUserId) == Some(step.result.error))
            && (step.result.Success? <==> Authorize(q, input.pin, input.discordUserId).None?))
      && (step.result.Success? ==> step.result.value == q.trueAnswer)
      && (q.revealedAt.None? && step.result.Success? ==> step.questions == MarkRevealed(qs, q.id, now))
  {
    var resolved := Resolve(qs, input.questionId);
    if resolved.Failure? then RevealStep(Failure(resolved.error), qs)
    else
      var q := resolved.value;
      if q.revealedAt.Some? then RevealStep(Success(q.trueAnswer), qs)
      else
        var denied := Authorize(q, input.pin, input.discordUserId);
        if denied.Some? then RevealStep(Failure(denied.value), qs)
        else RevealStep(Success(q.trueAnswer), MarkRevealed(qs, q.id, now))
  }

  // ---------------------------------------------------------------------------
  // getQuestion
  // ---------------------------------------------------------------------------

  /** Ascending `created_at` order, nulls last (the database's default). */
  predicate NoLater(a: Option<Timestamp>, b: Option<Timestamp>)
  {
    b.None? || (a.Some? && a.value <= b.value)
  }

  predicate SortedByCreatedAt(gs: seq<Guess>)
  {
    forall i, j :: 0 <= i < j < |gs| ==> NoLater(gs[i].createdAt, gs[j].createdAt)
  }

  function InsertByCreatedAt(g: Guess, s: seq<Guess>): (r: seq<Guess>)
    requires SortedByCreatedAt(s)
    ensures SortedByCreatedAt(r)
    ensures multiset(r) == multiset(s) + multiset{g}
    ensures |r| == |s| + 1
    ensures r[0] == g || (|s| > 0 && r[0] == s[0])
  {
    if |s| == 0 then [g]
    else if NoLater(g.createdAt, s[0].createdAt) then
      InsertFront(g, s);
      [g] + s
    else
      var rest := InsertByCreatedAt(g, s[1..]);
      InsertLater(g, s, rest);
      [s[0]] + rest
  }

  lemma InsertFront(g: Guess, s: seq<Guess>)
    requires SortedByCreatedAt(s) && |s| > 0 && NoLater(g.createdAt, s[0].createdAt)
    ensures SortedByCreatedAt([g] + s)
  {
    var r := [g] + s;
    forall i, j | 0 <= i < j < |r| ensures NoLater(r[i].createdAt, r[j].createdAt) {
      if i == 0 && j > 1 {
        assert NoLater(s[0].createdAt, s[j - 1].createdAt);
      }
    }
  }

  lemma InsertLater(g: Guess, s: seq<Guess>, rest: seq<Guess>)
    requires SortedByCreatedAt(s) && |s| > 0 && !NoLater(g.createdAt, s[0].createdAt)
    requires SortedByCreatedAt(rest) && multiset(rest) == multiset(s[1..]) + multiset{g}
    requires |rest| == |s| && (rest[0] == g || (|s| > 1 && rest[0] == s[1]))
    ensures SortedByCreatedAt([s[0]] + rest)
    ensures multiset([s[0]] + rest) == multiset(s) + multiset{g}
  {
    assert s == [s[0]] + s[1..];
    var r := [s[0]] + rest;
    forall i, j | 0 <= i < j < |r| ensures NoLater(r[i].createdAt, r[j].createdAt) {
      if i == 0 {
        if |s| > 1 {
          assert NoLater(s[0].createdAt, s[1].createdAt);
        }
        assert NoLater(r[0].createdAt, r[1].createdAt);
        if j > 1 {
          assert NoLater(rest[0].createdAt, rest[j - 1].createdAt);
        }
      }
    }
  }

  /** `.order('created_at', { ascending: true })`, ties kept in table order. */
  function SortByCreatedAt(s: seq<Guess>): (r: seq<Guess>)
    ensures SortedByCreatedAt(r)
    ensures multiset(r) == multiset(s)
    ensures |r| == |s|
  {
    if |s| == 0 then []
    else
      assert s == [s[0]] + s[1..];
      InsertByCreatedAt(s[0], SortByCreatedAt(s[1..]))
  }

  /** `.eq('question_id', id)` on `simple_guesses`. */
  function GuessesFor(gs: seq<Guess>, questionId: string): (r: seq<Guess>)
    ensures forall g :: g in r <==> g in gs && g.questionId == questionId
    ensures forall g :: multiset(r)[g] == if g.questionId == questionId then multiset(gs)[g] else 0
  {
    FilterMultiset(gs, (g: Guess) => g.questionId == questionId);
    Filter(gs, (g: Guess) => g.questionId == questionId)
  }

  /** A guess counts as made after the reveal when both timestamps are known
      and the guess's is strictly later. */
  predicate AfterReveal(revealedAt: Option<Timestamp>, createdAt: Option<Timestamp>)
  {
    revealedAt.Some? && createdAt.Some? && createdAt.value > revealedAt.value
  }

  function GuessViewOf(g: Guess, revealedAt: Option<Timestamp>): GuessView
  {
    GuessView(g.id, g.value, g.name, g.createdAt, AfterReveal(revealedAt, g.createdAt))
  }

  function GuessViews(gs: seq<Guess>, revealedAt: Option<Timestamp>): (r: seq<GuessView>)
    ensures |r| == |gs|
    ensures forall i :: 0 <= i < |gs| ==> r[i] == GuessViewOf(gs[i], revealedAt)
  {
    seq(|gs|, i requires 0 <= i < |gs| => GuessViewOf(gs[i], revealedAt))
  }

  /** Mapping guesses to views commutes with reordering them. */
  lemma {:induction false} GuessViewsPermutation(a: seq<Guess>, b: seq<Guess>, revealedAt: Option<Timestamp>)
    requires multiset(a) == multiset(b)
    ensures multiset(GuessViews(a, revealedAt)) == multiset(GuessViews(b, revealedAt))
    decreases |a|
  {
    if |a| > 0 {
      var x := a[0];
      assert x in multiset(b);
      var k :| 0 <= k < |b| && b[k] == x;
      var b' := b[..k] + b[k + 1..];
      RemoveAt(b, k);
      assert a == [x] + a[1..];
      assert multiset(a[1..]) == multiset(a) - multiset{x};
      GuessViewsPermutation(a[1..], b', revealedAt);
      ViewsRemoveAt(b, k, revealedAt);
      ViewsRemoveAt(a, 0, revealedAt);
      assert a[..0] + a[1..] == a[1..];
    }
  }

  lemma RemoveAt<T>(b: seq<T>, k: nat)
    requires k < |b|
    ensures multiset(b[..k] + b[k + 1..]) == multiset(b) - multiset{b[k]}
  {
    assert b == b[..k] + [b[k]] + b[k + 1..];
  }

  lemma ViewsRemoveAt(b: seq<Guess>, k: nat, revealedAt: Option<Timestamp>)
    requires k < |b|
    ensures multiset(GuessViews(b, revealedAt))
      == multiset(GuessViews(b[..k] + b[k + 1..], revealedAt)) + multiset{GuessViewOf(b[k], revealedAt)}
  {
    var vb, vb' := GuessViews(b, revealedAt), GuessViews(b[..k] + b[k + 1..], revealedAt);
    assert vb == vb'[..k] + [GuessViewOf(b[k], revealedAt)] + vb'[k..];
    assert vb' == vb'[..k] + vb'[k..];
  }

  function ViewOf(q: Question): (v: QuestionView)
    ensures v.trueAnswer.Some? <==> q.revealedAt.Some?
    ensures v.trueAnswer.Some? ==> v.trueAnswer.value == q.trueAnswer
    ensures v.revealed <==> q.revealedAt.Some?
    ensures v.hasPin <==> q.revealPin.Some?
    ensures v.id == q.id && v.shortId == ShortId(q.id)
  {
    var revealed := q.revealedAt.Some?;
    QuestionView(
      id := q.id,
      shortId := ShortId(q.id),
      title := q.title,
      description := q.description,
      minValue := q.minValue,
      maxValue := q.maxValue,
      revealed := revealed,
      revealedAt := q.revealedAt,
      trueAnswer := if revealed then Some(q.trueAnswer) else None,
      unit := q.unit,
      isCurrency := q.isCurrency,
      hasPin := q.revealPin.Some?,
      discordUserId := q.discordUserId,
      createdAt := q.createdAt)
  }

  /** `getQuestion(questionId)`: the question, with its true answer only once
      revealed, and its guesses in ascending `created_at` order, each marked
      with whether it was made after the reveal. */
  function GetQuestion(qs: seq<Question>, gs: seq<Guess>, questionId: string): (r: Result<QuestionPage, Error>)
    ensures r.Success? <==> Resolve(qs, questionId).Success?
    ensures Resolve(qs, questionId).Failure? ==> r == Failure(Resolve(qs, questionId).error)
    ensures r.Success? ==>
      var q := Resolve(qs, questionId).value;
      var page := r.value;
      && page.question == ViewOf(q)
      && multiset(page.guesses) == multiset(GuessViews(GuessesFor(gs, q.id), q.revealedAt))
      && (forall i, j :: 0 <= i < j < |page.guesses| ==>
            NoLater(page.guesses[i].createdAt, page.guesses[j].createdAt))
      && (forall i :: 0 <= i < |page.guesses| ==>
            (page.guesses[i].afterReveal <==> AfterReveal(q.revealedAt, page.guesses[i].createdAt)))
  {
    var resolved := Resolve(qs, questionId);
    if resolved.Failure? then Failure(resolved.error)
    else
      var q := resolved.value;
      var mine := GuessesFor(gs, q.id);
      var ordered := SortByCreatedAt(mine);
      GuessViewsPermutation(ordered, mine, q.revealedAt);
      Success(QuestionPage(ViewOf(q), GuessViews(ordered, q.revealedAt)))
  }
}
