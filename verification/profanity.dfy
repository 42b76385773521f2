/**
 * The profanity filter of the validate endpoint (replaceProfane in
 * internal/handlers/validate_handler.go and its copy in validate.go): each banned word,
 * and its upper-case spelling, is replaced by "****" with strings.ReplaceAll.
 */
module Profanity {
  import opened Records
  import opened Http

  const Stars := "****"

  /** The banned words, in the order the filter visits them. */
  const Profane := ["kerfuffle", "sharbert", "fornax"]

  /** strings.ToUpper on ASCII text: lower-case letters become upper-case, all else stays. */
  function ToUpper(s: string): (u: string)
    ensures |u| == |s|
    ensures forall i | 0 <= i < |s| :: u[i] == UpperChar(s[i])
  {
    seq(|s|, i requires 0 <= i < |s| => UpperChar(s[i]))
  }

  /** The upper-case letter for an ASCII lower-case one; any other character unchanged. */
  function UpperChar(c: char): (u: char)
    ensures 'a' <= c <= 'z' ==> 'A' <= u <= 'Z' && u as int - 'A' as int == c as int - 'a' as int
    ensures !('a' <= c <= 'z') ==> u == c
  {
    if 'a' <= c <= 'z' then (c as int - 32) as char else c
  }

  /** `w` occurs in `s` starting at index `i`. */
  predicate OccursAt(s: string, w: string, i: int) {
    0 <= i && i + |w| <= |s| && s[i..i + |w|] == w
  }

  /** `w` occurs somewhere in `s`. */
  predicate Occurs(s: string, w: string) {
    exists i | 0 <= i <= |s| :: OccursAt(s, w, i)
  }

  /** No character of `s` is a star. */
  predicate StarFree(s: string) {
    forall i | 0 <= i < |s| :: s[i] != '*'
  }

  /**
   * strings.ReplaceAll with a non-empty pattern: scanning from the left, each occurrence
   * of `pat` is replaced by `rep` and the scan resumes after it, so matches never overlap.
   */
  function ReplaceAll(s: string, pat: string, rep: string): string
    requires |pat| > 0
    decreases |s|
  {
    if |s| < |pat| then s
    else if s[..|pat|] == pat then rep + ReplaceAll(s[|pat|..], pat, rep)
    else [s[0]] + ReplaceAll(s[1..], pat, rep)
  }

  /** The patterns the filter replaces for `words`: each word, then its upper-case spelling. */
  function Banned(words: seq<string>): (pats: seq<string>)
    ensures |pats| == 2 * |words|
    ensures forall i | 0 <= i < |words| :: pats[2 * i] == words[i] && pats[2 * i + 1] == ToUpper(words[i])
  {
    if words == [] then [] else [words[0], ToUpper(words[0])] + Banned(words[1..])
  }

  /** Replacing each pattern of `pats` in turn by stars. */
  function ScrubAll(s: string, pats: seq<string>): string
    requires forall i | 0 <= i < |pats| :: |pats[i]| > 0
    decreases |pats|
  {
    if pats == [] then s else ScrubAll(ReplaceAll(s, pats[0], Stars), pats[1..])
  }

  /** The six strings the filter replaces. */
  const Patterns := ["kerfuffle", "KERFUFFLE", "sharbert", "SHARBERT", "fornax", "FORNAX"]

  /** The filter's patterns are the six strings, each non-empty and without a star. */
  lemma BannedIsPatterns()
    ensures Banned(Profane) == Patterns
    ensures forall i | 0 <= i < |Patterns| :: |Patterns[i]| > 0 && StarFree(Patterns[i])
  {
    assert ToUpper("kerfuffle") == "KERFUFFLE";
    assert ToUpper("sharbert") == "SHARBERT";
    assert ToUpper("fornax") == "FORNAX";
  }

  /** What replaceProfane returns for `text`. */
  function Cleaned(text: string): string {
    BannedIsPatterns();
    ScrubAll(text, Banned(Profane))
  }

  /** replaceProfane: a loop over the banned words, replacing the word and then its upper-case spelling. */
  method ReplaceProfane(text: string) returns (r: string)
    ensures r == Cleaned(text)
  {
    BannedIsPatterns();
    var profane := ["kerfuffle", "sharbert", "fornax"];
    r := text;
    for i := 0 to |profane|
      invariant ScrubAll(r, Banned(profane[i..])) == Cleaned(text)
    {
      var word := profane[i];
      assert Banned(profane[i..]) == [word, ToUpper(word)] + Banned(profane[i + 1..]);
      r := ReplaceAll(r, word, Stars);
      r := ReplaceAll(r, ToUpper(word), Stars);
    }
  }

  /**
   * ValidateHandler (and validateHandler in validate.go): a malformed body gives 400,
   * otherwise 200 with the filtered text as "cleaned_body".
   */
  method ValidateHandler(body: Option<string>) returns (reply: Reply)
    ensures body.None? ==> reply == Failure(StatusBadRequest)
    ensures body.Some? ==> reply == Reply([StatusOK], [CleanedJson(Cleaned(body.value))])
  {
    if body.None? {
      return Failure(StatusBadRequest);
    }
    var cleaned := ReplaceProfane(body.value);
    return Reply([StatusOK], [CleanedJson(cleaned)]);
  }

  /** `v` is a prefix of `s`. */
  predicate IsPrefix(v: string, s: string) {
    |v| <= |s| && s[..|v|] == v
  }

  /** A star-free prefix of the replaced text was already a prefix of the original. */
  lemma {:induction false} PrefixOfReplaced(t: string, pat: string, v: string)
    requires |pat| > 0 && StarFree(v)
    ensures IsPrefix(v, ReplaceAll(t, pat, Stars)) ==> IsPrefix(v, t)
    decreases |t|
  {
    var r := ReplaceAll(t, pat, Stars);
    if |t| < |pat| || v == [] {
    } else if t[..|pat|] == pat {
      assert r == Stars + ReplaceAll(t[|pat|..], pat, Stars);
      if |v| <= |r| {
        assert r[..|v|][0] == '*' != v[0];
      }
    } else {
      var rest := ReplaceAll(t[1..], pat, Stars);
      assert r == [t[0]] + rest;
      PrefixOfReplaced(t[1..], pat, v[1..]);
      if IsPrefix(v, r) {
        assert rest[..|v| - 1] == v[1..];
        assert t[..|v|] == [t[0]] + t[1..][..|v| - 1];
      }
    }
  }

  /** An occurrence past a prefix `p` is an occurrence in what follows it, shifted by |p|. */
  lemma OccursAtShift(p: string, rest: string, v: string, i: int)
    requires i >= |p|
    ensures OccursAt(p + rest, v, i) <==> OccursAt(rest, v, i - |p|)
  {
    if i + |v| <= |p + rest| {
      var a, b := (p + rest)[i..i + |v|], rest[i - |p|..i - |p| + |v|];
      assert |a| == |b| && forall k | 0 <= k < |v| :: a[k] == b[k];
    }
  }

  /** A word that occurs in a suffix of `t` occurs in `t`. */
  lemma OccursInSuffix(t: string, d: nat, v: string)
    requires d <= |t|
    ensures Occurs(t[d..], v) ==> Occurs(t, v)
  {
    if Occurs(t[d..], v) {
      var j :| 0 <= j <= |t[d..]| && OccursAt(t[d..], v, j);
      assert t == t[..d] + t[d..];
      OccursAtShift(t[..d], t[d..], v, j + d);
      assert OccursAt(t, v, j + d);
    }
  }

  /** Replacing by stars creates no new occurrence of a star-free word. */
  lemma {:induction false} OccurrenceSurvives(t: string, pat: string, v: string, i: int)
    requires |pat| > 0 && |v| > 0 && StarFree(v)
    ensures OccursAt(ReplaceAll(t, pat, Stars), v, i) ==> Occurs(t, v)
    decreases |t|
  {
    var r := ReplaceAll(t, pat, Stars);
    if |t| < |pat| {
    } else if t[..|pat|] == pat {
      var rest := ReplaceAll(t[|pat|..], pat, Stars);
      assert r == Stars + rest;
      if i < |Stars| {
        if 0 <= i && i + |v| <= |r| {
          assert r[i..i + |v|][0] == r[i] == '*' != v[0];
        }
      } else {
        OccursAtShift(Stars, rest, v, i);
        OccurrenceSurvives(t[|pat|..], pat, v, i - |Stars|);
        OccursInSuffix(t, |pat|, v);
      }
    } else {
      var rest := ReplaceAll(t[1..], pat, Stars);
      assert r == [t[0]] + rest;
      if i == 0 {
        PrefixOfReplaced(t, pat, v);
        if OccursAt(r, v, 0) {
          assert r[..|v|] == r[0..|v|];
          assert t[0..|v|] == t[..|v|];
          assert OccursAt(t, v, 0);
        }
      } else if i > 0 {
        OccursAtShift([t[0]], rest, v, i);
        OccurrenceSurvives(t[1..], pat, v, i - 1);
        OccursInSuffix(t, 1, v);
      }
    }
  }

  /** After ReplaceAll, a star-free pattern occurs nowhere in the result. */
  lemma {:induction false} ReplaceAllRemoves(t: string, pat: string, i: int)
    requires |pat| > 0 && StarFree(pat)
    ensures !OccursAt(ReplaceAll(t, pat, Stars), pat, i)
    decreases |t|
  {
    var r := ReplaceAll(t, pat, Stars);
    if |t| < |pat| {
    } else if t[..|pat|] == pat {
      var rest := ReplaceAll(t[|pat|..], pat, Stars);
      assert r == Stars + rest;
      if i < |Stars| {
        if 0 <= i && i + |pat| <= |r| {
          assert r[i..i + |pat|][0] == r[i] == '*' != pat[0];
        }
      } else {
        ReplaceAllRemoves(t[|pat|..], pat, i - |Stars|);
        OccursAtShift(Stars, rest, pat, i);
      }
    } else {
      var rest := ReplaceAll(t[1..], pat, Stars);
      assert r == [t[0]] + rest;
      if i == 0 {
        PrefixOfReplaced(t, pat, pat);
        if |pat| <= |r| {
          assert r[..|pat|] == r[0..|pat|];
        }
      } else if i > 0 {
        ReplaceAllRemoves(t[1..], pat, i - 1);
        OccursAtShift([t[0]], rest, pat, i);
      }
    }
  }

  /** Text in which the pattern does not occur is returned unchanged. */
  lemma {:induction false} ReplaceAllNoop(t: string, pat: string, rep: string)
    requires |pat| > 0 && !Occurs(t, pat)
    ensures ReplaceAll(t, pat, rep) == t
    decreases |t|
  {
    if |t| >= |pat| {
      assert !OccursAt(t, pat, 0);
      assert t[..|pat|] == t[0..|pat|];
      forall j | 0 <= j <= |t[1..]|
        ensures !OccursAt(t[1..], pat, j)
      {
        assert !OccursAt(t, pat, j + 1);
        assert t == [t[0]] + t[1..];
        OccursAtShift([t[0]], t[1..], pat, j + 1);
      }
      ReplaceAllNoop(t[1..], pat, rep);
      assert t == [t[0]] + t[1..];
    }
  }

  /** No word absent from the text appears after scrubbing. */
  lemma {:induction false} ScrubAllSurvives(t: string, pats: seq<string>, v: string)
    requires forall i | 0 <= i < |pats| :: |pats[i]| > 0
    requires |v| > 0 && StarFree(v) && !Occurs(t, v)
    ensures !Occurs(ScrubAll(t, pats), v)
    decreases |pats|
  {
    if pats != [] {
      var once := ReplaceAll(t, pats[0], Stars);
      forall i | 0 <= i <= |once|
        ensures !OccursAt(once, v, i)
      {
        OccurrenceSurvives(t, pats[0], v, i);
      }
      ScrubAllSurvives(once, pats[1..], v);
    }
  }

  /** After scrubbing, none of the star-free patterns occurs. */
  lemma {:induction false} ScrubAllRemoves(t: string, pats: seq<string>)
    requires forall i | 0 <= i < |pats| :: |pats[i]| > 0 && StarFree(pats[i])
    ensures forall j | 0 <= j < |pats| :: !Occurs(ScrubAll(t, pats), pats[j])
    decreases |pats|
  {
    if pats != [] {
      var once := ReplaceAll(t, pats[0], Stars);
      ScrubAllRemoves(once, pats[1..]);
      forall i | 0 <= i <= |once|
        ensures !OccursAt(once, pats[0], i)
      {
        ReplaceAllRemoves(t, pats[0], i);
      }
      ScrubAllSurvives(once, pats[1..], pats[0]);
      forall j | 1 <= j < |pats|
        ensures !Occurs(ScrubAll(t, pats), pats[j])
      {
        assert pats[j] == pats[1..][j - 1];
      }
    }
  }

  /** Text in which no pattern occurs is left as it is by scrubbing. */
  lemma {:induction false} ScrubAllNoop(t: string, pats: seq<string>)
    requires forall i | 0 <= i < |pats| :: |pats[i]| > 0 && !Occurs(t, pats[i])
    ensures ScrubAll(t, pats) == t
    decreases |pats|
  {
    if pats != [] {
      ReplaceAllNoop(t, pats[0], Stars);
      ScrubAllNoop(t, pats[1..]);
    }
  }

  /** None of the six banned strings occurs in the filtered text. */
  lemma CleanedHasNoBanned(text: string)
    ensures forall p | p in Patterns :: !Occurs(Cleaned(text), p)
  {
    BannedIsPatterns();
    ScrubAllRemoves(text, Patterns);
  }

  /** Text containing none of the six banned strings is returned unchanged. */
  lemma CleanedIdentity(text: string)
    requires forall p | p in Patterns :: !Occurs(text, p)
    ensures Cleaned(text) == text
  {
    BannedIsPatterns();
    ScrubAllNoop(text, Patterns);
  }

  /** Filtering twice gives what filtering once gives. */
  lemma CleanedIdempotent(text: string)
    ensures Cleaned(Cleaned(text)) == Cleaned(text)
  {
    CleanedHasNoBanned(text);
    CleanedIdentity(Cleaned(text));
  }

  /** A word with a letter that the text lacks does not occur in the text. */
  lemma AbsentLetter(text: string, w: string, k: nat)
    requires k < |w| && forall i | 0 <= i < |text| :: text[i] != w[k]
    ensures !Occurs(text, w)
  {
    forall i | 0 <= i <= |text|
      ensures !OccursAt(text, w, i)
    {
      if i + |w| <= |text| {
        assert text[i..i + |w|][k] == text[i + k];
      }
    }
  }

  /** Only the exact lower-case and upper-case spellings match: "Kerfuffle" passes untouched. */
  lemma MixedCaseUntouched()
    ensures Cleaned("Kerfuffle") == "Kerfuffle"
  {
    var text := "Kerfuffle";
    AbsentLetter(text, "kerfuffle", 0);
    AbsentLetter(text, "KERFUFFLE", 1);
    AbsentLetter(text, "sharbert", 0);
    AbsentLetter(text, "SHARBERT", 0);
    AbsentLetter(text, "fornax", 1);
    AbsentLetter(text, "FORNAX", 0);
    CleanedIdentity(text);
  }
}
