/** URL slugs (src/lib/slug.ts): `generateSlug` rewrites free text into a
    slug by a chain of lower-casing, trimming and regular-expression
    replacements; `isValidSlug` is the pattern-and-length check applied to
    slugs typed in by a question's owner. */
module Slug {
  import opened Text

  // ---------------------------------------------------------------------------
  // Character classes
  // ---------------------------------------------------------------------------

  predicate IsUpper(c: char) { 'A' <= c <= 'Z' }

  /** The regular-expression class `\w`: ASCII letters, digits and `_`. */
  predicate IsWordChar(c: char)
  {
    'a' <= c <= 'z' || IsUpper(c) || '0' <= c <= '9' || c == '_'
  }

  /** `[a-z0-9]`, the class a valid slug's segments are made of. */
  predicate IsAlnum(c: char) { 'a' <= c <= 'z' || '0' <= c <= '9' }

  predicate IsHyphen(c: char) { c == '-' }

  /** The characters `generateSlug` can produce: `[a-z0-9_-]`. */
  predicate IsSlugChar(c: char) { IsAlnum(c) || c == '_' || c == '-' }

  predicate NoDoubleHyphen(s: string)
  {
    forall i :: 0 <= i < |s| - 1 ==> !(s[i] == '-' && s[i + 1] == '-')
  }

  /** What every output of `generateSlug` looks like. */
  predicate IsSlugText(s: string)
  {
    && (forall c :: c in s ==> IsSlugChar(c))
    && NoDoubleHyphen(s)
    && (|s| == 0 || s[|s| - 1] != '-')
  }

  // ---------------------------------------------------------------------------
  // The rewriting steps of generateSlug
  // ---------------------------------------------------------------------------

  function LowerChar(c: char): char
  {
    if IsUpper(c) then (c as int + 32) as char else c
  }

  /** `toLowerCase`, restricted to the ASCII letters. */
  function ToLower(s: string): (r: string)
    ensures |r| == |s|
    ensures forall i :: 0 <= i < |s| ==> r[i] == LowerChar(s[i])
    ensures forall c :: c in r ==> !IsUpper(c)
  {
    seq(|s|, i requires 0 <= i < |s| => LowerChar(s[i]))
  }

  /** Kept by `.replace(/[^\w\s-]/g, '')`. */
  predicate Kept(c: char) { IsWordChar(c) || IsSpace(c) || c == '-' }

  /** `.replace(/[^\w\s-]/g, '')`: the subsequence of the characters kept. */
  function RemoveNonWord(s: string): (r: string)
    ensures |r| <= |s|
    ensures forall c :: c in r <==> c in s && Kept(c)
    ensures (forall i :: 0 <= i < |s| ==> Kept(s[i])) ==> r == s
    ensures |s| == 1 ==> r == if Kept(s[0]) then s else []
  {
    if |s| == 0 then []
    else if Kept(s[0]) then [s[0]] + RemoveNonWord(s[1..])
    else RemoveNonWord(s[1..])
  }

  /** Removing characters works piece by piece: together with the
      one-character case, the result is the input with exactly the
      characters that are not kept deleted, in order. */
  lemma {:induction false} RemoveNonWordAppend(a: string, b: string)
    ensures RemoveNonWord(a + b) == RemoveNonWord(a) + RemoveNonWord(b)
    decreases |a|
  {
    if |a| == 0 {
      assert a + b == b;
    } else {
      assert (a + b)[0] == a[0] && (a + b)[1..] == a[1..] + b;
      RemoveNonWordAppend(a[1..], b);
    }
  }

  /** Drops the maximal run of `inRun` characters at the front of `s`. */
  function SkipRun(s: string, inRun: char -> bool): (r: string)
    ensures |r| <= |s| && r == s[|s| - |r|..]
    ensures |r| == 0 || !inRun(r[0])
    ensures |s| > 0 && inRun(s[0]) ==> |r| < |s|
  {
    if |s| > 0 && inRun(s[0]) then SkipRun(s[1..], inRun) else s
  }

  /** A global replacement `.replace(/X+/g, '-')`: every maximal run of
      characters of the class `inRun` becomes one `-`, everything else stays. */
  function ReplaceRuns(s: string, inRun: char -> bool): (r: string)
    ensures |r| <= |s|
    ensures |r| == 0 <==> |s| == 0
    ensures |s| > 0 ==> r[0] == (if inRun(s[0]) then '-' else s[0])
    ensures forall c :: c in r ==> c == '-' || (c in s && !inRun(c))
    ensures inRun('-') ==> NoDoubleHyphen(r)
    decreases |s|
  {
    if |s| == 0 then []
    else if inRun(s[0]) then
      var rest := SkipRun(s, inRun);
      var tail := ReplaceRuns(rest, inRun);
      SuffixMembers(rest, s);
      ConsKeepsShape('-', tail, inRun('-'));
      "-" + tail
    else
      var tail := ReplaceRuns(s[1..], inRun);
      SuffixMembers(s[1..], s);
      ConsKeepsShape(s[0], tail, inRun('-'));
      [s[0]] + tail
  }

  /** The same replacement read character by character: a character outside
      the class is copied; a class character becomes `-` when the character
      before it is outside the class or it is the first one, and is dropped
      when the character before it is in the class. `afterRun` says whether
      the character before `s[0]` is in the class. */
  function RunsCharwise(s: string, inRun: char -> bool, afterRun: bool): string
    decreases |s|
  {
    if |s| == 0 then []
    else
      (if !inRun(s[0]) then [s[0]] else if afterRun then [] else "-")
      + RunsCharwise(s[1..], inRun, inRun(s[0]))
  }

  /** `ReplaceRuns` agrees with the character-by-character reading: each
      maximal run of the class becomes one `-`, everything else stays. */
  lemma {:induction false} ReplaceRunsIsCharwise(s: string, inRun: char -> bool)
    ensures ReplaceRuns(s, inRun) == RunsCharwise(s, inRun, false)
    decreases |s|
  {
    if |s| > 0 {
      if inRun(s[0]) {
        assert SkipRun(s, inRun) == SkipRun(s[1..], inRun);
        SkipRunCharwise(s[1..], inRun);
        ReplaceRunsIsCharwise(SkipRun(s, inRun), inRun);
      } else {
        ReplaceRunsIsCharwise(s[1..], inRun);
      }
    }
  }

  /** Inside a run, the rest of the run contributes nothing. */
  lemma {:induction false} SkipRunCharwise(t: string, inRun: char -> bool)
    ensures RunsCharwise(t, inRun, true) == RunsCharwise(SkipRun(t, inRun), inRun, false)
    decreases |t|
  {
    if |t| > 0 && inRun(t[0]) {
      SkipRunCharwise(t[1..], inRun);
    }
  }

  /** Putting `c` in front of `t` adds only `c`, and creates no `--` when
      `c` and the head of `t` are not both hyphens. */
  lemma ConsKeepsShape(c: char, t: string, apart: bool)
    requires apart ==> c != '-' || |t| == 0 || t[0] != '-'
    ensures forall x :: x in [c] + t ==> x == c || x in t
    ensures apart && NoDoubleHyphen(t) ==> NoDoubleHyphen([c] + t)
  {
    var r := [c] + t;
    assert forall i :: 1 <= i < |r| ==> r[i] == t[i - 1];
  }

  lemma SuffixMembers(r: string, s: string)
    requires |r| <= |s| && r == s[|s| - |r|..]
    ensures forall c :: c in r ==> c in s
  {
    forall c | c in r ensures c in s {
      var i :| 0 <= i < |r| && r[i] == c;
      assert s[|s| - |r| + i] == c;
    }
  }

  /** `.slice(0, end)`: a negative `end` counts from the end of the string. */
  function SliceTo(s: string, end: int): (r: string)
    ensures r <= s
    ensures 0 <= end ==> |r| <= end
    ensures 0 <= end < |s| ==> |r| == end
    ensures end >= |s| ==> r == s
    ensures end < 0 ==> |r| == if |s| + end > 0 then |s| + end else 0
  {
    if end < 0 then s[..if |s| + end > 0 then |s| + end else 0]
    else if end < |s| then s[..end]
    else s
  }

  /** `.replace(/-$/, '')`: removes one hyphen at the very end. */
  function DropTrailingHyphen(s: string): (r: string)
    ensures r <= s && |s| - 1 <= |r|
    ensures |s| > 0 && s[|s| - 1] == '-' ==> |r| == |s| - 1
    ensures |s| == 0 || s[|s| - 1] != '-' ==> r == s
    ensures NoDoubleHyphen(s) ==> |r| == 0 || r[|r| - 1] != '-'
  {
    if |s| > 0 && s[|s| - 1] == '-' then s[..|s| - 1] else s
  }

  lemma PrefixKeepsShape(r: string, s: string)
    requires r <= s
    ensures forall c :: c in r ==> c in s
    ensures NoDoubleHyphen(s) ==> NoDoubleHyphen(r)
  {
    assert forall i :: 0 <= i < |r| ==> r[i] == s[i];
  }

  // ---------------------------------------------------------------------------
  // generateSlug
  // ---------------------------------------------------------------------------

  /** `generateSlug(text, maxLength)` (the TypeScript default for
      `maxLength` is 30). The result uses only `[a-z0-9_-]`, has no `--`,
      does not end in `-`, and is at most `maxLength` long. */
  function GenerateSlug(text: string, maxLength: int): (slug: string)
    ensures IsSlugText(slug)
    ensures 0 <= maxLength ==> |slug| <= maxLength
  {
    var lowered := ToLower(text);
    var trimmed := Trim(lowered);
    var words := RemoveNonWord(trimmed);
    var dashed := ReplaceRuns(words, IsSpace);
    var collapsed := ReplaceRuns(dashed, IsHyphen);
    var cut := SliceTo(collapsed, maxLength);
    var slug := DropTrailingHyphen(cut);
    PrefixKeepsShape(cut, collapsed);
    PrefixKeepsShape(slug, cut);
    assert forall c :: c in dashed ==> IsSlugChar(c);
    slug
  }

  /** A string already in slug form that fits in `maxLength` is left as it
      is by every step of the pipeline. */
  lemma SlugFixedPoint(s: string, maxLength: int)
    requires IsSlugText(s) && |s| <= maxLength
    ensures GenerateSlug(s, maxLength) == s
  {
    SlugTextSteps(s);
    GenerateSlugSteps(s, maxLength, s, s, s, s);
    assert SliceTo(s, maxLength) == s;
  }

  /** The rewriting steps before the cut leave slug text unchanged. */
  lemma SlugTextSteps(s: string)
    requires IsSlugText(s)
    ensures Trim(ToLower(s)) == s && RemoveNonWord(s) == s
    ensures ReplaceRuns(s, IsSpace) == s && ReplaceRuns(s, IsHyphen) == s
  {
    assert forall i :: 0 <= i < |s| ==> s[i] in s;
    forall i | 0 <= i < |s|
      ensures !IsUpper(s[i]) && Kept(s[i]) && !IsSpace(s[i])
    {
      SlugCharIsPlain(s[i]);
    }
    LowerTrimFixed(s);
    SpaceRunsFixed(s);
    HyphenRunsFixed(s);
  }

  lemma LowerTrimFixed(s: string)
    requires forall i :: 0 <= i < |s| ==> !IsUpper(s[i]) && !IsSpace(s[i])
    ensures Trim(ToLower(s)) == s
  {
    assert ToLower(s) == s;
    TrimFixed(s);
  }

  lemma SpaceRunsFixed(s: string)
    requires forall i :: 0 <= i < |s| ==> !IsSpace(s[i])
    ensures ReplaceRuns(s, IsSpace) == s
  {
    ReplaceRunsIdentity(s, IsSpace);
  }

  lemma HyphenRunsFixed(s: string)
    requires NoDoubleHyphen(s)
    ensures ReplaceRuns(s, IsHyphen) == s
  {
    ReplaceRunsIdentity(s, IsHyphen);
  }

  lemma SlugCharIsPlain(c: char)
    requires IsSlugChar(c)
    ensures !IsUpper(c) && Kept(c) && !IsSpace(c)
  {
  }

  /** `generateSlug` as the composition of its steps, given their results. */
  lemma GenerateSlugSteps(text: string, maxLength: int, trimmed: string, words: string, dashed: string, collapsed: string)
    requires Trim(ToLower(text)) == trimmed && RemoveNonWord(trimmed) == words
    requires ReplaceRuns(words, IsSpace) == dashed && ReplaceRuns(dashed, IsHyphen) == collapsed
    ensures GenerateSlug(text, maxLength) == DropTrailingHyphen(SliceTo(collapsed, maxLength))
  {
  }

  /** `ReplaceRuns` changes nothing when every run character is a lone `-`. */
  lemma {:induction false} ReplaceRunsIdentity(s: string, inRun: char -> bool)
    requires forall i :: 0 <= i < |s| && inRun(s[i]) ==> s[i] == '-' && (i + 1 < |s| ==> !inRun(s[i + 1]))
    ensures ReplaceRuns(s, inRun) == s
    decreases |s|
  {
    if |s| > 0 {
      ReplaceRunsIdentity(s[1..], inRun);
      if inRun(s[0]) {
        assert SkipRun(s, inRun) == SkipRun(s[1..], inRun) == s[1..];
      }
    }
  }

  /** Re-slugging a slug with the same `maxLength` leaves it unchanged. */
  lemma GenerateSlugIdempotent(text: string, maxLength: int)
    requires 0 <= maxLength
    ensures GenerateSlug(GenerateSlug(text, maxLength), maxLength) == GenerateSlug(text, maxLength)
  {
    SlugFixedPoint(GenerateSlug(text, maxLength), maxLength);
  }

  // ---------------------------------------------------------------------------
  // isValidSlug
  // ---------------------------------------------------------------------------

  /** The regular expression `^[a-z0-9]+(?:-[a-z0-9]+)*$`, run as its
      automaton: one alphanumeric character, then `SegmentsTail`. */
  predicate MatchesSlugPattern(s: string)
  {
    |s| > 0 && IsAlnum(s[0]) && SegmentsTail(s[1..])
  }

  /** The automaton's accepting state just after an alphanumeric character:
      the input may end, continue the segment, or start a new segment with a
      hyphen that must be followed by an alphanumeric character. */
  predicate SegmentsTail(t: string)
    decreases |t|
  {
    || |t| == 0
    || (IsAlnum(t[0]) && SegmentsTail(t[1..]))
    || (t[0] == '-' && |t| > 1 && IsAlnum(t[1]) && SegmentsTail(t[2..]))
  }

  /** Declarative reading of the pattern: alphanumerics and single hyphens,
      starting and ending with an alphanumeric character. */
  predicate SlugShape(s: string)
  {
    && |s| > 0 && IsAlnum(s[0]) && IsAlnum(s[|s| - 1])
    && (forall c :: c in s ==> IsAlnum(c) || c == '-')
    && NoDoubleHyphen(s)
  }

  predicate TailShape(t: string)
  {
    && (forall c :: c in t ==> IsAlnum(c) || c == '-')
    && NoDoubleHyphen(t)
    && (|t| == 0 || IsAlnum(t[|t| - 1]))
  }

  lemma {:induction false} SegmentsTailIffShape(t: string)
    ensures SegmentsTail(t) <==> TailShape(t)
    decreases |t|
  {
    if |t| == 0 {
    } else if IsAlnum(t[0]) {
      SegmentsTailIffShape(t[1..]);
      assert t == [t[0]] + t[1..];
      assert forall i :: 1 <= i < |t| ==> t[i] == t[1..][i - 1];
    } else if t[0] == '-' {
      if |t| > 1 {
        SegmentsTailIffShape(t[2..]);
        assert t == [t[0], t[1]] + t[2..];
        assert forall i :: 2 <= i < |t| ==> t[i] == t[2..][i - 2];
        if TailShape(t) {
          assert t[1] in t;
        }
      }
    } else {
      assert t[0] in t;
    }
  }

  /** The pattern and its declarative reading accept the same strings. */
  lemma PatternIffShape(s: string)
    ensures MatchesSlugPattern(s) <==> SlugShape(s)
  {
    if |s| > 0 {
      SegmentsTailIffShape(s[1..]);
      assert s == [s[0]] + s[1..];
      assert forall i :: 1 <= i < |s| ==> s[i] == s[1..][i - 1];
    }
  }

  /** `isValidSlug(slug)`: the pattern matches and the length is 3 to 50.
      Equivalently, the slug is 3 to 50 characters of `[a-z0-9]` and single
      hyphens, with an alphanumeric character at each end. */
  function IsValidSlug(slug: string): (valid: bool)
    ensures valid <==> SlugShape(slug) && 3 <= |slug| <= 50
  {
    PatternIffShape(slug);
    MatchesSlugPattern(slug) && |slug| >= 3 && |slug| <= 50
  }

  /** Slugs accepted by `isValidSlug` are exactly reproduced by
      `generateSlug` with any length limit they fit in. */
  lemma ValidSlugIsFixedPoint(slug: string, maxLength: int)
    requires IsValidSlug(slug) && |slug| <= maxLength
    ensures GenerateSlug(slug, maxLength) == slug
  {
    SlugFixedPoint(slug, maxLength);
  }

  /** A generated slug passes `isValidSlug` when the limit is at most 50 and
      the result is at least 3 long, does not start with `-` and has no `_`
      (the two things the pipeline does not remove). */
  lemma GeneratedSlugValid(text: string, maxLength: int)
    requires 0 <= maxLength <= 50
    requires var slug := GenerateSlug(text, maxLength);
      3 <= |slug| && slug[0] != '-' && '_' !in slug
    ensures IsValidSlug(GenerateSlug(text, maxLength))
  {
    SlugTextValid(GenerateSlug(text, maxLength));
  }

  lemma SlugTextValid(s: string)
    requires IsSlugText(s) && 3 <= |s| <= 50 && s[0] != '-' && '_' !in s
    ensures IsValidSlug(s)
  {
    assert s[0] in s && s[|s| - 1] in s;
  }
}
