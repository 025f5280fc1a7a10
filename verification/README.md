# Guessing-game core, modelled in Dafny

The application lets someone post a numeric question (a title, a range
`min`–`max` and a hidden true answer), collect guesses from anyone, and
then reveal the answer. Revealing is a one-way gate from Open to Revealed.
A question may carry a reveal PIN, and the Discord user who created it may
reveal it without one. This project models three library files:

- **The simple-question service** (`src/lib/services/questions.ts`).
  - The pure parts are functions over the two tables, each given as a
    sequence of rows in insertion order (module `Questions`). They are
    short-identifier resolution, the validators, the reveal gate and the
    read view.
  - The three writing operations are methods of a `Store` class, whose
    fields are the `simple_questions` and `simple_guesses` tables (module
    `QuestionStore`). Each method is proved to agree with the matching
    function, and to keep the table invariant.
  - The invariant and the properties that relate several operations are in
    module `QuestionProperties`.
- **Slugs** (`src/lib/slug.ts`, module `Slug`). `generateSlug` is a chain of
  string rewrites. `isValidSlug` is a regular expression plus a length check.
  The JavaScript whitespace class and `trim` are in module `Text`.
- **Unit formatting** (`src/lib/formatValue.ts`, module `UnitFormat`).

Modelling choices:

- The database is replaced by the two sequences, and the effects of each
  query are modelled directly:
  - An insert appends a row.
  - `update … eq('id', …)` stamps `revealed_at` on every row with that id.
    Under the invariant that is exactly one row.
  - The database's generated `id` and `created_at` are parameters (`newId`,
    `now`). An insert whose `newId` is already taken fails, as the primary
    key would make it fail.
- The `get_simple_question_by_prefix` RPC (`src/types/database.ts:229-245`)
  is assumed to return every question whose id starts with the prefix.
  Its SQL is not part of this model.
- `.single()` on the exact-id lookup fails unless exactly one row matches.
- Ordering by `created_at` ascending puts null timestamps last, which is
  PostgreSQL's default. Ties keep table order.
- Timestamps are `nat`. The source compares ISO-8601 strings with `>`,
  which orders them in time for a single format.
- Numbers are `int`, so the `isNaN` check of `createQuestion` cannot fail
  and is not modelled.
- `toLowerCase` is modelled on the ASCII letters. Together with `\w`
  (letters, digits, `_`), this is the only part of the slug pipeline that
  depends on case.
- `toLocaleString` is modelled as the `en-US` rendering of an integer: a
  sign, then the digits grouped in threes with `,`. The unit properties do
  not depend on that rendering.

## Model

| member | source | states |
|---|---|---|
| Text.Trim | src/lib/slug.ts:7 | `trim` removes exactly the leading and trailing whitespace: the result is an infix of the input, everything cut off is whitespace, neither end of the result is whitespace, and the result is empty exactly when the input is all whitespace |
| Slug.ToLower | src/lib/slug.ts:6 | lower-casing keeps the length, maps each character on its own, and leaves no upper-case ASCII letter |
| Slug.RemoveNonWord | src/lib/slug.ts:8 | a character survives exactly when it is a word character, whitespace or `-`; a single character is kept or deleted by that test; a string made only of such characters is unchanged |
| Slug.RemoveNonWordAppend | src/lib/slug.ts:8 | the removal works piece by piece (the result for `a + b` is the result for `a` followed by the result for `b`), so with the one-character case the result is the input with exactly the other characters deleted, in order |
| Slug.ReplaceRuns | src/lib/slug.ts:9-10 | the result is empty exactly when the input is; it starts with `-` for a class character and otherwise with the input's first character; it holds only `-` and input characters outside the class; when `-` is in the class, it has no `--` |
| Slug.ReplaceRunsIsCharwise | src/lib/slug.ts:9-10 | run replacement equals the character-by-character reading: a character outside the class is copied, the first character of each maximal run of the class becomes `-`, and the rest of the run is dropped |
| Slug.SliceTo | src/lib/slug.ts:11 | `slice(0, n)` is the prefix of exactly `n` characters when `0 <= n` is below the length, the whole string when `n` reaches the length, and for a negative `n` the prefix that leaves out the last `-n` characters |
| Slug.DropTrailingHyphen | src/lib/slug.ts:12 | a final `-` is removed, and only that one character; a string not ending in `-` is unchanged; a string without `--` then no longer ends in `-` |
| Slug.GenerateSlug | src/lib/slug.ts:4-13 | the slug uses only `[a-z0-9_-]`, has no `--`, does not end in `-`, and is no longer than a non-negative `maxLength` |
| Slug.SlugFixedPoint | src/lib/slug.ts:4-13 | a string already in slug form that fits in `maxLength` comes out unchanged |
| Slug.ReplaceRunsIdentity | src/lib/slug.ts:9-10 | run replacement changes nothing when every run character is a lone `-` |
| Slug.GenerateSlugIdempotent | src/lib/slug.ts:4-13 | slugging a slug again with the same `maxLength` gives the same slug |
| Slug.SegmentsTailIffShape | src/lib/slug.ts:19 | the pattern's automaton, after the first segment character, accepts exactly the strings of `[a-z0-9]` and single hyphens that end in `[a-z0-9]` |
| Slug.PatternIffShape | src/lib/slug.ts:19 | `^[a-z0-9]+(?:-[a-z0-9]+)*$` matches exactly the non-empty strings of `[a-z0-9]` and single hyphens that begin and end with `[a-z0-9]` |
| Slug.IsValidSlug | src/lib/slug.ts:18-20 | a slug is valid exactly when it has that shape and is 3 to 50 characters long |
| Slug.ValidSlugIsFixedPoint | src/lib/slug.ts:4-20 | `generateSlug` reproduces every valid slug that fits in the limit |
| Slug.GeneratedSlugValid | src/lib/slug.ts:4-20 | with a limit of at most 50, a generated slug of 3 or more characters that does not start with `-` and has no `_` is valid |
| UnitFormat.FormatNumber | src/lib/formatValue.ts:11 | the formatted number is not empty, starts with `-` exactly when the value is negative, and uses only digits, `,` and `-` |
| UnitFormat.FormatValue | src/lib/formatValue.ts:6-23 | a currency is the custom unit, or `$` when the unit is empty or absent, followed by the number; a percentage is the number then `%`; a custom unit is the number then a space and the unit, or the bare number when the unit is empty or absent; `none` is the bare number |
| UnitFormat.GetUnitDisplay | src/lib/formatValue.ts:28-39 | only a currency has a prefix: its unit when present and non-empty, otherwise `$`. Only a percentage, or a custom unit that is present and non-empty, has a suffix: `%` for a percentage, and a space then the unit for a custom unit |
| UnitFormat.FormatValueMatchesDisplay | src/lib/formatValue.ts:6-39 | for every unit type and custom unit, the formatted value is the display prefix, then the number, then the display suffix |
| Questions.TrimmedOrNull | src/lib/services/questions.ts:250 | `name?.trim() \|\| null` is null exactly when the name is absent or all whitespace, and otherwise is the trimmed name, which is not empty |
| Questions.OrNull | src/lib/services/questions.ts:151 | `pin \|\| null` is null exactly when the value is absent or empty, and otherwise is that value |
| Questions.ShortId | src/lib/services/questions.ts:165 | the short id is the first `min(7, length)` characters of the id |
| Questions.FilterMultiset | src/lib/services/questions.ts:181-184 | a lookup returns each row that meets its condition as many times as the table holds it, and no other row |
| Questions.FilterCount | src/lib/services/questions.ts:90-98 | the rows a lookup returns number zero, exactly one, or more than one, exactly as zero, one or several rows satisfy its condition; with one, it is the row that does |
| Questions.Resolve | src/lib/services/questions.ts:79-113 | resolution succeeds exactly when one question matches: by prefix for ids of at most 8 characters, by equality for longer ones. Several prefix matches give "Ambiguous question ID". No match, or several exact matches, gives "Question not found". The question found matches, and every matching row is that question |
| Questions.ValidateCreate | src/lib/services/questions.ts:122-137 | the first failing check, in order: "Title is required" exactly when the title is all whitespace, then "Min must be less than max", then "Answer must be between min and max"; no error exactly when all three hold |
| Questions.NewQuestion | src/lib/services/questions.ts:141-153 | the inserted row has the trimmed title, `revealed_at` null, `created_at` set, the PIN null exactly when none or an empty one was given, the description and unit trimmed or null, the Discord user id null when absent or empty, `is_currency` false unless given as true, and the given bounds and answer |
| Questions.Create | src/lib/services/questions.ts:119-168 | creation fails exactly when validation fails or the id is already taken, and then leaves the table unchanged. A validation failure reports the first failing check; a taken id reports "Failed to create question". On success, exactly the new row is appended, and the result is its id and short id |
| Questions.CheckGuess | src/lib/services/questions.ts:236-241 | a guess passes exactly when it lies within `[min, max]`; otherwise the error carries both bounds |
| Questions.Submit | src/lib/services/questions.ts:224-267 | resolution errors pass through. A guess is stored exactly when it is within range and its id is fresh. An out-of-range value fails with the bounds, and an in-range guess whose id is taken fails with "Failed to submit guess". On success, exactly one guess is appended, for the resolved question's id and with the trimmed name or null, and it is echoed back. A failure leaves the guesses unchanged |
| Questions.Authorize | src/lib/services/questions.ts:288-301 | the gate opens exactly when there is no PIN, or the caller is the creator (both Discord ids non-empty and equal), or a non-empty PIN equals the stored one. Otherwise a missing or empty PIN gives "PIN required" and a different PIN gives "Invalid PIN" |
| Questions.MarkRevealed | src/lib/services/questions.ts:303-308 | the update stamps `revealed_at = now` on the rows with the question's id, changes nothing else in them, and leaves all other rows unchanged |
| Questions.Reveal | src/lib/services/questions.ts:269-318 | resolution errors pass through. An already revealed question answers at once, with no PIN check and no write. Otherwise the reveal succeeds exactly when the gate opens, and then the row is stamped. A refused reveal reports the gate's error and writes nothing. Success always answers the true answer |
| Questions.SortByCreatedAt | src/lib/services/questions.ts:185 | ordering by `created_at` gives a permutation of the rows, in ascending order with nulls last |
| Questions.InsertByCreatedAt | src/lib/services/questions.ts:185 | inserting one guess into an ordered list keeps it ordered and adds exactly that guess |
| Questions.GuessesFor | src/lib/services/questions.ts:181-184 | the guesses fetched are exactly those whose `question_id` is the question's id, each as often as the table holds it |
| Questions.GuessViewsPermutation | src/lib/services/questions.ts:213-219 | mapping guesses to their views commutes with reordering them |
| Questions.ViewOf | src/lib/services/questions.ts:191-212 | the view shows the true answer exactly when the question is revealed; `revealed` is whether `revealed_at` is set; `hasPin` is whether a PIN is stored; the id is the question's and the short id is its first 7 characters |
| Questions.GetQuestion | src/lib/services/questions.ts:170-222 | the read view exists exactly when the id resolves, and otherwise the resolution error passes through. It shows the question's view, and exactly the question's guesses as a permutation, in ascending `created_at` order with nulls last. Each guess is marked after-reveal exactly when both timestamps are set and the guess's is later |
| QuestionProperties.CreatePreservesInvariant | src/types/database.ts:127-173 | creating a question keeps the table invariant: unique question ids; each question with `min < max`, its answer in range and no empty PIN; unique guess ids; every guess pointing at a question and within its range |
| QuestionProperties.SubmitPreservesInvariant | src/lib/services/questions.ts:236-253 | submitting a guess keeps the table invariant |
| QuestionProperties.RevealPreservesInvariant | src/lib/services/questions.ts:303-308 | revealing keeps the table invariant |
| QuestionProperties.ResolveAfterMark | src/lib/services/questions.ts:79-113 | stamping a reveal does not change what any identifier resolves to, apart from the stamped timestamp itself |
| QuestionProperties.RevealIdempotent | src/lib/services/questions.ts:280-286 | after a successful reveal, revealing the same question again, with any PIN, caller and time, gives the same answer and writes nothing |
| QuestionProperties.RevealStampsOnlyTarget | src/lib/services/questions.ts:303-308 | with unique ids, a reveal changes at most the resolved question, and only by setting its `revealed_at` from null to now; a revealed question is never changed |
| QuestionProperties.RevealWithoutPinSucceeds | e2e/simple-questions.spec.ts:161-177 | a question without a PIN is revealed whatever PIN is given |
| QuestionProperties.CreatorBypassesPin | src/lib/services/questions.ts:288-294 | the creator's Discord id reveals the question without a PIN |
| QuestionProperties.RevealThenViewShowsAnswer | e2e/simple-questions.spec.ts:179-216 | after a successful reveal, the read view shows the question as revealed, with the answer that the reveal returned |
| QuestionProperties.CreatedQuestionResolves | src/lib/services/questions.ts:161-167 | a created question is found by its full id when that is longer than 8 characters, and by its short id when no other question's id starts with the same characters |
| QuestionProperties.FilterAppend | src/lib/services/questions.ts:181-184 | appending a row that meets a lookup's condition appends it to the lookup's result |
| QuestionProperties.SubmittedGuessIsListed | src/lib/services/questions.ts:245-253 | a guess accepted by `submitGuess` appears in the question's read view, with its after-reveal mark |
| QuestionProperties.GuessAcceptedAfterReveal | src/lib/services/questions.ts:233-241 | the service accepts an in-range guess on a revealed question: only the range is checked, not the reveal |
| QuestionStore.Store.constructor | src/types/database.ts:127-173 | an empty store satisfies the invariant |
| QuestionStore.Store.CreateQuestion | src/lib/services/questions.ts:119-168 | the method returns what `Questions.Create` returns, leaves the questions in the state it gives, keeps the guesses and keeps the invariant |
| QuestionStore.Store.SubmitGuess | src/lib/services/questions.ts:224-267 | the method agrees with `Questions.Submit` on result and guesses, keeps the questions and keeps the invariant |
| QuestionStore.Store.RevealAnswer | src/lib/services/questions.ts:269-318 | the method agrees with `Questions.Reveal` on result and questions, keeps the guesses and keeps the invariant |

## Left out

- Database and network failures are not modelled: "Failed to create
  question", "Failed to submit guess", "Failed to fetch guesses" and "Failed
  to reveal answer" when the backend errs. The one exception is an insert
  whose new id is already taken, which fails as the primary key would.
- The `isNaN` check of `createQuestion` ("Invalid number values") is not
  modelled: numbers are integers here, and floating point is out of scope.
- Only the ASCII letters are lower-cased. Other Unicode case mappings of
  `toLowerCase` are out of scope. A few of them produce ASCII letters that
  the slug would keep: U+212A KELVIN SIGN becomes `k`, and U+0130 becomes
  `i` followed by a combining dot.
- `toLocaleString` is fixed to the `en-US` rendering of integers. Other
  locales and fractional numbers are not modelled.
- UnitFormat.FormatNumber: its contract states the sign and the characters
  used, not the exact placement of the group separators.
- The order of guesses with equal `created_at` is not fixed by the database.
  The model keeps table order, and its properties hold for any order.
- The body of `get_simple_question_by_prefix` is not part of this model. In
  particular, `%` or `_` in a prefix would act as wildcards if it used
  `LIKE`.
- The check-then-update race between two concurrent reveals, and
  concurrency in general, are not modelled: the operations run one at a time.
- ISO-8601 timestamp strings are abstracted to `nat`. Clock reads are the
  `now` parameter.
- The HTTP and Discord adapters, the pages and the components that call
  these functions are not part of this model. This includes the page's
  refusal to take guesses after a reveal: the service itself accepts them.
- `generateSlug` may return a slug that `isValidSlug` rejects: one that
  starts with `-` (a space after a removed leading punctuation mark), one
  containing `_`, or one shorter than 3 characters.
  `Slug.GeneratedSlugValid` states the conditions under which the two agree.
