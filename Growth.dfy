/**
 * The growth loop shared by `is_country`, `is_region` and `is_city`: after
 * the first word is pulled, the candidate name grows leftward one word at a
 * time, joined with a single space, for at most `word_max` words. A
 * candidate that starts with a lowercase letter is skipped, but growth goes
 * on past it; otherwise the first candidate whose lowercased form is a key
 * of the name map is accepted and growth stops; reaching the start of the
 * text without a hit ends the search.
 *
 * `GrowFrom` follows the loop; `Accepts` and `Halts` state the acceptance
 * rule length by length, and `GrowAcceptsFirstHit` proves the two agree.
 */
module Growth {
  import opened Chars
  import opened Optional
  import opened Tokenizer

  /** `current_word` and `current_index` after some number of pulls. */
  datatype Candidate = Candidate(words: string, index: int)

  /** An accepted name: its row, `current_word`, `current_index + 1`, and
      how many words were pulled to reach it. */
  datatype Hit<R> = Hit(row: R, matched: string, start: int, words: nat)

  /** The candidate after `k` pulls, when the first pull read `first` and
      stopped at `firstNext`. */
  function CandAt(text: string, first: string, firstNext: int, k: nat): (c: Candidate)
    requires 1 <= k && firstNext < |text|
    ensures c.index <= firstNext
    ensures firstNext >= -1 ==> c.index >= -1
    ensures k == 1 ==> c == Candidate(first, firstNext)
    decreases k
  {
    if k == 1 then Candidate(first, firstNext)
    else
      var prior := CandAt(text, first, firstNext, k - 1);
      var p := PullWord(text, prior.index);
      Candidate(p.word + " " + prior.words, p.next)
  }

  /** A candidate of two words or more has a space in it. */
  lemma CandAtSpaced(text: string, first: string, firstNext: int, k: nat)
    requires 2 <= k && firstNext < |text|
    ensures ' ' in CandAt(text, first, firstNext, k).words
  {
    var prior := CandAt(text, first, firstNext, k - 1);
    var p := PullWord(text, prior.index);
    assert (p.word + " " + prior.words)[|p.word|] == ' ';
  }

  /** The candidate of `k + 1` words: the word before the candidate of `k`
      words, a space, and that candidate. */
  lemma CandAtNext(text: string, first: string, firstNext: int, k: nat)
    requires 1 <= k && firstNext < |text|
    ensures var prior := CandAt(text, first, firstNext, k);
      var p := PullWord(text, prior.index);
      CandAt(text, first, firstNext, k + 1) == Candidate(p.word + " " + prior.words, p.next)
  {
  }

  /** The text a candidate covers: the characters from just above its
      index to `e`, the end of the first word, each run of boundary
      characters squashed to one space, after `j` leading spaces that only
      a scan run off the start of the text adds. */
  ghost predicate Covers(text: string, e: int, c: Candidate, j: nat)
    requires e < |text|
  {
    && -1 <= c.index < e
    && (c.index >= 0 ==> IsBoundary(text[c.index]) && !IsBoundary(text[c.index + 1]))
    && c.words == Spaces(j) + SquashRange(text, c.index + 1, e + 1)
    && (j > 0 ==> c.index == -1)
  }

  /** One more pull keeps the candidate covering its text. */
  lemma StepCovers(text: string, e: int, prior: Candidate, j: nat, next: Candidate) returns (j': nat)
    requires e < |text| && Covers(text, e, prior, j)
    requires var q := PullWord(text, prior.index);
      next == Candidate(q.word + " " + prior.words, q.next)
    ensures Covers(text, e, next, j')
    ensures j' == if prior.index < 0 then j + 1 else 0
  {
    if prior.index < 0 {
      j' := j + 1;
      OffStartCovers(text, e, prior.words, j);
    } else {
      j' := 0;
      JoinCovers(text, prior.index, e, prior.words);
      var q := PullWord(text, prior.index);
      assert Spaces(0) + (q.word + " " + prior.words) == q.word + " " + prior.words;
    }
  }

  /** A candidate with a leading space from a pull below the start of the
      text lies at index -1 and starts with that space. */
  lemma CoversLead(text: string, e: int, c: Candidate, j: nat)
    requires e < |text| && Covers(text, e, c, j) && 1 <= j
    ensures c.index == -1 && c.words != "" && c.words[0] == ' '
  {
    assert Spaces(j) == " " + Spaces(j - 1);
  }

  /** A pull below the start of the text adds one more leading space. */
  lemma OffStartCovers(text: string, e: int, words: string, j: nat)
    requires 0 <= e < |text| && words == Spaces(j) + SquashRange(text, 0, e + 1)
    ensures "" + " " + words == Spaces(j + 1) + SquashRange(text, 0, e + 1)
  {
    assert Spaces(j + 1) == " " + Spaces(j);
  }

  /** The first pull covers exactly its own word. */
  lemma FirstCovers(text: string, idx: int)
    requires idx < |text| && PullWord(text, idx).word != ""
    ensures var p := PullWord(text, idx);
      Covers(text, idx - p.skipped, Candidate(p.word, p.next), 0)
  {
    var p := PullWord(text, idx);
    var e := idx - p.skipped;
    PullWordIsPull(text, idx);
    assert p.word[0] == text[p.next + 1];
    SquashRangeWord(text, p.next + 1, e + 1, e + 1, p.word);
    assert p.word + [] == p.word;
    assert Spaces(0) + p.word == p.word;
  }

  /** A pull from the boundary just below a covered stretch extends it by
      the next word down and one space for the run between. */
  lemma JoinCovers(text: string, i: int, e: int, words: string)
    requires 0 <= i < e < |text|
    requires IsBoundary(text[i]) && !IsBoundary(text[i + 1])
    requires words == SquashRange(text, i + 1, e + 1)
    ensures var q := PullWord(text, i);
      && -1 <= q.next < i
      && (q.next >= 0 ==> IsBoundary(text[q.next]) && !IsBoundary(text[q.next + 1]))
      && q.word + " " + words == SquashRange(text, q.next + 1, e + 1)
  {
    var q := PullWord(text, i);
    var m := i - q.skipped;
    assert 0 <= q.next + 1 <= m + 1 < i + 1 && |q.word| == m - q.next
      && (forall t :: 0 <= t < |q.word| ==> q.word[t] == text[q.next + 1 + t] && !IsBoundary(q.word[t]))
      && (forall t :: m + 1 <= t < i + 1 ==> IsBoundary(text[t]))
      && (q.next >= 0 ==> IsBoundary(text[q.next]) && !IsBoundary(text[q.next + 1]))
    by {
      PullWordIsPull(text, i);
      assert q.skipped >= 1;
      if q.next >= 0 {
        assert q.word[0] == text[q.next + 1];
      }
    }
    JoinSquash(text, q.next + 1, m + 1, i + 1, e + 1, q.word);
  }

  /** A word, then a maximal run of boundaries, then a squashed stretch:
      the word, one space, and the stretch. */
  lemma JoinSquash(text: string, lo: int, m: int, i: int, hi: int, w: string)
    requires 0 <= lo <= m < i < hi <= |text| && |w| == m - lo
    requires forall t :: 0 <= t < |w| ==> w[t] == text[lo + t] && !IsBoundary(w[t])
    requires forall t :: m <= t < i ==> IsBoundary(text[t])
    requires !IsBoundary(text[i])
    ensures w + " " + SquashRange(text, i, hi) == SquashRange(text, lo, hi)
  {
    SquashRangeRun(text, m, i, hi);
    SquashRangeWord(text, lo, m, hi, w);
  }

  /** `CandAtNext` seen from the longer candidate. */
  lemma CandAtPrior(text: string, first: string, firstNext: int, k: nat)
    requires 2 <= k && firstNext < |text|
    ensures var prior := CandAt(text, first, firstNext, k - 1);
      var p := PullWord(text, prior.index);
      CandAt(text, first, firstNext, k) == Candidate(p.word + " " + prior.words, p.next)
  {
  }

  /** The rest of the growth loop once `c` words have been pulled. */
  function GrowFrom<R>(text: string, names: map<string, R>, first: string, firstNext: int,
                       c: nat, wordMax: nat): (h: Option<Hit<R>>)
    requires 1 <= c <= wordMax && firstNext < |text|
    ensures h.Some? ==> c <= h.value.words <= wordMax
    decreases wordMax - c
  {
    var cand := CandAt(text, first, firstNext, c);
    if cand.words == "" then None
    else if IsLowerChar(cand.words[0]) then
      if c < wordMax then GrowFrom(text, names, first, firstNext, c + 1, wordMax) else None
    else if Lower(cand.words) in names then
      Some(Hit(names[Lower(cand.words)], cand.words, cand.index + 1, c))
    else if cand.index < 0 then None
    else if c < wordMax then GrowFrom(text, names, first, firstNext, c + 1, wordMax)
    else None
  }

  /** `GrowFrom` in the order the loop tests: an empty candidate ends the
      search, a capitalised one filed in `names` is the hit, a capitalised
      one at the start of the text or the last allowed one ends it, and
      otherwise one more word is pulled. */
  lemma GrowFromAt<R>(text: string, names: map<string, R>, first: string, firstNext: int,
                      c: nat, wordMax: nat)
    requires 1 <= c <= wordMax && firstNext < |text|
    ensures var cand := CandAt(text, first, firstNext, c);
      GrowFrom(text, names, first, firstNext, c, wordMax)
      == if cand.words == "" then None
         else if !IsLowerChar(cand.words[0]) && Lower(cand.words) in names then
           Some(Hit(names[Lower(cand.words)], cand.words, cand.index + 1, c))
         else if (!IsLowerChar(cand.words[0]) && cand.index < 0) || c == wordMax then None
         else GrowFrom(text, names, first, firstNext, c + 1, wordMax)
  {
  }

  /** `h` is the candidate of its length, capitalised, and filed in
      `names` under its lowercased form. */
  ghost predicate IsAccepted<R>(text: string, names: map<string, R>, first: string, firstNext: int, h: Hit<R>)
  {
    && 1 <= h.words && firstNext < |text|
    && CandAt(text, first, firstNext, h.words) == Candidate(h.matched, h.start - 1)
    && h.matched != ""
    && !IsLowerChar(h.matched[0])
    && Lower(h.matched) in names
    && names[Lower(h.matched)] == h.row
  }

  /** Every name the growth loop accepts is such a candidate. */
  lemma {:induction false} GrowFromHit<R>(text: string, names: map<string, R>, first: string, firstNext: int,
                                          c: nat, wordMax: nat)
    requires 1 <= c <= wordMax && firstNext < |text|
    ensures var h := GrowFrom(text, names, first, firstNext, c, wordMax);
      h.Some? ==> IsAccepted(text, names, first, firstNext, h.value)
    decreases wordMax - c
  {
    if c < wordMax {
      GrowFromHit(text, names, first, firstNext, c + 1, wordMax);
    }
  }

  /** A search that starts from an empty word finds nothing. */
  lemma GrowFromEmptyFirst<R>(text: string, names: map<string, R>, firstNext: int, wordMax: nat)
    requires 1 <= wordMax && firstNext < |text|
    ensures GrowFrom(text, names, "", firstNext, 1, wordMax).None?
  {
  }

  /** The candidate of length `k` is capitalised and names a place. */
  ghost predicate Accepts<R>(text: string, names: map<string, R>, first: string, firstNext: int, k: nat)
    requires 1 <= k && firstNext < |text|
  {
    var cand := CandAt(text, first, firstNext, k);
    cand.words != "" && !IsLowerChar(cand.words[0]) && Lower(cand.words) in names
  }

  /** The candidate of length `k` ends the search without a name: it is
      empty, or it is capitalised, unknown, and reaches the start of the text. */
  ghost predicate Halts<R>(text: string, names: map<string, R>, first: string, firstNext: int, k: nat)
    requires 1 <= k && firstNext < |text|
  {
    var cand := CandAt(text, first, firstNext, k);
    cand.words == "" || (!IsLowerChar(cand.words[0]) && Lower(cand.words) !in names && cand.index < 0)
  }

  /** The candidate before the `k`-th has reached the start of the text
      and begins with a space. */
  ghost predicate LeadBefore(text: string, first: string, firstNext: int, k: nat)
    requires firstNext < |text|
  {
    2 <= k
    && var c := CandAt(text, first, firstNext, k - 1);
       c.index < 0 && c.words != "" && c.words[0] == ' '
  }

  /** Such a candidate, capitalised at the start of the text, is either
      accepted or ends the search. */
  lemma LeadStops<R>(text: string, names: map<string, R>, first: string, firstNext: int, k: nat)
    requires 1 <= k && firstNext < |text|
    ensures 2 <= k && LeadBefore(text, first, firstNext, k) ==>
      Accepts(text, names, first, firstNext, k - 1) || Halts(text, names, first, firstNext, k - 1)
  {
  }

  /** One turn of the growth loop, in terms of `Accepts` and `Halts`. */
  lemma GrowFromStep<R>(text: string, names: map<string, R>, first: string,
                        firstNext: int, c: nat, wordMax: nat)
    requires 1 <= c <= wordMax && firstNext < |text|
    ensures !(Accepts(text, names, first, firstNext, c) && Halts(text, names, first, firstNext, c))
    ensures Accepts(text, names, first, firstNext, c) ==>
      GrowFrom(text, names, first, firstNext, c, wordMax).Some?
      && GrowFrom(text, names, first, firstNext, c, wordMax).value.words == c
    ensures Halts(text, names, first, firstNext, c) ==>
      GrowFrom(text, names, first, firstNext, c, wordMax).None?
    ensures !Accepts(text, names, first, firstNext, c) && !Halts(text, names, first, firstNext, c) ==>
      GrowFrom(text, names, first, firstNext, c, wordMax)
        == if c < wordMax then GrowFrom(text, names, first, firstNext, c + 1, wordMax) else None
  {
  }

  /** No length from `c` up to (not including) `k` accepts or halts. */
  ghost predicate PassesUntil<R>(text: string, names: map<string, R>, first: string, firstNext: int, c: nat, k: nat)
    requires 1 <= c && firstNext < |text|
  {
    forall j :: c <= j < k ==>
      !Accepts(text, names, first, firstNext, j) && !Halts(text, names, first, firstNext, j)
  }

  lemma PassesUntilStep<R>(text: string, names: map<string, R>, first: string, firstNext: int, c: nat, k: nat)
    requires 1 <= c < k && firstNext < |text|
    requires !Accepts(text, names, first, firstNext, c) && !Halts(text, names, first, firstNext, c)
    ensures PassesUntil(text, names, first, firstNext, c, k) <==> PassesUntil(text, names, first, firstNext, c + 1, k)
  {
  }

  /** A length that neither accepts nor halts hands the search on to the
      next length, and is passed over by `PassesUntil`. */
  lemma GrowFromPasses<R>(text: string, names: map<string, R>, first: string,
                          firstNext: int, c: nat, wordMax: nat, k: nat)
    requires 1 <= c < k <= wordMax && firstNext < |text|
    requires !Accepts(text, names, first, firstNext, c) && !Halts(text, names, first, firstNext, c)
    ensures GrowFrom(text, names, first, firstNext, c, wordMax)
         == GrowFrom(text, names, first, firstNext, c + 1, wordMax)
    ensures PassesUntil(text, names, first, firstNext, c, k)
         == PassesUntil(text, names, first, firstNext, c + 1, k)
  {
    GrowFromStep(text, names, first, firstNext, c, wordMax);
    PassesUntilStep(text, names, first, firstNext, c, k);
  }

  lemma {:induction false} GrowFromFirstHit<R>(text: string, names: map<string, R>, first: string,
                                               firstNext: int, c: nat, wordMax: nat, k: nat)
    requires 1 <= c <= k <= wordMax && firstNext < |text|
    ensures (GrowFrom(text, names, first, firstNext, c, wordMax).Some?
             && GrowFrom(text, names, first, firstNext, c, wordMax).value.words == k)
        <==> (Accepts(text, names, first, firstNext, k) && PassesUntil(text, names, first, firstNext, c, k))
    decreases k - c
  {
    var here := GrowFrom(text, names, first, firstNext, c, wordMax);
    if Accepts(text, names, first, firstNext, c) || Halts(text, names, first, firstNext, c) || c == k {
      // The search ends at length c, or k == c: no recursion needed.
      GrowFromStep(text, names, first, firstNext, c, wordMax);
      assert c < k ==> !PassesUntil(text, names, first, firstNext, c, k);
    } else {
      var rest := GrowFrom(text, names, first, firstNext, c + 1, wordMax);
      GrowFromPasses(text, names, first, firstNext, c, wordMax, k);
      GrowFromFirstHit(text, names, first, firstNext, c + 1, wordMax, k);
      assert (here.Some? && here.value.words == k) == (rest.Some? && rest.value.words == k);
    }
  }

  /** The acceptance rule: the search accepts the name of `k` words exactly
      when that candidate is capitalised and known, and no shorter candidate
      was accepted or ended the search. Lowercase candidates neither accept
      nor halt, so growth goes on past them. */
  lemma GrowAcceptsFirstHit<R>(text: string, names: map<string, R>, first: string,
                               firstNext: int, wordMax: nat, k: nat)
    requires 1 <= k <= wordMax && firstNext < |text|
    ensures (GrowFrom(text, names, first, firstNext, 1, wordMax).Some?
             && GrowFrom(text, names, first, firstNext, 1, wordMax).value.words == k)
        <==> (Accepts(text, names, first, firstNext, k)
              && forall j :: 1 <= j < k ==>
                   !Accepts(text, names, first, firstNext, j) && !Halts(text, names, first, firstNext, j))
  {
    GrowFromFirstHit(text, names, first, firstNext, 1, wordMax, k);
  }
}
