/**
 * The backward word tokenizer: `pull_word_from_end` reads one word leftward
 * from an index, after skipping the boundary characters that trail it.
 *
 * `PullWord` is the specification of one scan; `IsPullOf` characterises its
 * result independently, and `PullWordUnique` shows the characterisation
 * admits nothing else. The memoising, looping implementation is
 * `Parser.GeodictParser.PullWordFromEnd`.
 */
module Tokenizer {
  import opened Chars

  /** The tuple `(word, nextIndex, end_skipped)` returned by a scan. */
  datatype Pulled = Pulled(word: string, next: int, skipped: nat)

  /** The number of boundary characters in the run that ends at `i`. */
  function SkipRun(text: string, i: int): (k: nat)
    requires -1 <= i < |text|
    ensures k <= i + 1
    ensures i - k >= 0 ==> !IsBoundary(text[i - k])
    decreases i + 1
  {
    if i < 0 || !IsBoundary(text[i]) then 0 else 1 + SkipRun(text, i - 1)
  }

  /** The run is made of boundary characters and is maximal. */
  lemma {:induction false} SkipRunIsMaximal(text: string, i: int)
    requires -1 <= i < |text|
    ensures forall j :: i - SkipRun(text, i) < j <= i ==> IsBoundary(text[j])
    ensures i - SkipRun(text, i) >= 0 ==> !IsBoundary(text[i - SkipRun(text, i)])
    decreases i + 1
  {
    if i >= 0 && IsBoundary(text[i]) {
      SkipRunIsMaximal(text, i - 1);
    }
  }

  /** The index of the boundary character just before the word that ends
      at `e`, or -1 when the word reaches the start of the text. */
  function WordStart(text: string, e: int): (n: int)
    requires -1 <= e < |text|
    ensures -1 <= n <= e
    decreases e + 1
  {
    if e < 0 || IsBoundary(text[e]) then e else WordStart(text, e - 1)
  }

  /** The word between the start and `e` has no boundary character, and
      the start is a boundary or the beginning of the text. */
  lemma {:induction false} WordStartIsMaximal(text: string, e: int)
    requires -1 <= e < |text|
    ensures forall j :: WordStart(text, e) < j <= e ==> !IsBoundary(text[j])
    ensures WordStart(text, e) >= 0 ==> IsBoundary(text[WordStart(text, e)])
    decreases e + 1
  {
    if e >= 0 && !IsBoundary(text[e]) {
      WordStartIsMaximal(text, e - 1);
    }
  }

  /** The word that ends at `e`, in text order. */
  function WordAt(text: string, e: int): (w: string)
    requires -1 <= e < |text|
    ensures |w| == e - WordStart(text, e)
    decreases e + 1
  {
    if e < 0 || IsBoundary(text[e]) then "" else WordAt(text, e - 1) + [text[e]]
  }

  /** The word is the run of characters just above its start. */
  lemma {:induction false} WordAtSpansText(text: string, e: int)
    requires -1 <= e < |text|
    ensures forall j :: 0 <= j < |WordAt(text, e)| ==> WordAt(text, e)[j] == text[WordStart(text, e) + 1 + j]
    decreases e + 1
  {
    if e >= 0 && !IsBoundary(text[e]) {
      WordAtSpansText(text, e - 1);
    }
  }

  /** What a scan of `text` from `index` must return: no boundary character
      in the word; the word is `text[next+1 .. index-skipped]` (inclusive),
      character by character;
      exactly the `skipped` characters above it are boundaries, and the one
      below the skipped run is not; the scan stopped at a boundary or at the
      start of the text. A negative index yields `('', index, 0)`. */
  ghost predicate IsPullOf(text: string, index: int, p: Pulled)
    requires index < |text|
  {
    if index < 0 then p == Pulled("", index, 0)
    else
      && -1 <= p.next
      && p.skipped <= index + 1
      && p.next + |p.word| + p.skipped == index
      && (forall j :: 0 <= j < |p.word| ==> p.word[j] == text[p.next + 1 + j] && !IsBoundary(p.word[j]))
      && (forall j :: index - p.skipped < j <= index ==> IsBoundary(text[j]))
      && (index - p.skipped >= 0 ==> !IsBoundary(text[index - p.skipped]))
      && (p.next >= 0 ==> IsBoundary(text[p.next]))
  }

  /** One scan of `pull_word_from_end`, without the memo. */
  function PullWord(text: string, index: int): (p: Pulled)
    requires index < |text|
    ensures index < 0 ==> p.next == index
    ensures index >= 0 ==> -1 <= p.next < index
    ensures index >= 0 ==> p.next + |p.word| + p.skipped == index
    ensures p.word != "" ==> index >= 0
  {
    if index < 0 then Pulled("", index, 0)
    else
      var k := SkipRun(text, index);
      var e := index - k;
      Pulled(WordAt(text, e), WordStart(text, e), k)
  }

  /** A scan meets the characterisation. */
  lemma PullWordIsPull(text: string, index: int)
    requires index < |text|
    ensures IsPullOf(text, index, PullWord(text, index))
  {
    if index >= 0 {
      var e := index - SkipRun(text, index);
      SkipRunIsMaximal(text, index);
      WordStartIsMaximal(text, e);
      WordAtSpansText(text, e);
    }
  }

  /** The characterisation pins the scan down: whatever satisfies
      `IsPullOf` is the result of `PullWord`. */
  lemma PullWordUnique(text: string, index: int, p: Pulled)
    requires index < |text|
    requires IsPullOf(text, index, p)
    ensures p == PullWord(text, index)
  {
    if index >= 0 {
      var q := PullWord(text, index);
      PullWordIsPull(text, index);
      // The skipped run has one length: each run stops at a word character.
      assert index - p.skipped >= 0 ==> !IsBoundary(text[index - p.skipped]);
      assert index - q.skipped >= 0 ==> !IsBoundary(text[index - q.skipped]);
      if p.skipped < q.skipped {
        assert false;
      } else if q.skipped < p.skipped {
        assert false;
      }
      // The word has one start: each stops at a boundary or the text start.
      forall k | p.next < k <= index - p.skipped
        ensures !IsBoundary(text[k])
      {
        assert p.word[k - p.next - 1] == text[k];
      }
      forall k | q.next < k <= index - q.skipped
        ensures !IsBoundary(text[k])
      {
        assert q.word[k - q.next - 1] == text[k];
      }
      assert p.next >= 0 ==> IsBoundary(text[p.next]);
      assert q.next >= 0 ==> IsBoundary(text[q.next]);
      if p.next < q.next {
        assert false;
      } else if q.next < p.next {
        assert false;
      }
      assert |p.word| == |q.word|;
      assert forall j :: 0 <= j < |p.word| ==> p.word[j] == q.word[j];
    }
  }

  /** `s` without its leading boundary characters. */
  function DropBoundaries(s: string): (r: string)
    ensures |r| <= |s|
    ensures s != [] && IsBoundary(s[0]) ==> |r| < |s|
  {
    if s == [] || !IsBoundary(s[0]) then s else DropBoundaries(s[1..])
  }

  /** `s` with every maximal run of boundary characters replaced by one
      space: how a name of several words reads once the growth loop has
      joined its words. */
  function Squash(s: string): string
    decreases |s|
  {
    if s == [] then []
    else if IsBoundary(s[0]) then " " + Squash(DropBoundaries(s))
    else [s[0]] + Squash(s[1..])
  }

  /** `n` spaces. */
  function Spaces(n: nat): (s: string)
    ensures |s| == n
  {
    if n == 0 then [] else " " + Spaces(n - 1)
  }

  /** The first index from `lo` on that does not hold a boundary
      character, or `hi` when the run reaches it. */
  function SkipTo(text: string, lo: int, hi: int): (r: int)
    requires 0 <= lo <= hi <= |text|
    ensures lo <= r <= hi
    decreases hi - lo
  {
    if lo == hi || !IsBoundary(text[lo]) then lo else SkipTo(text, lo + 1, hi)
  }

  /** `Squash(text[lo..hi])`, computed on indices (`SquashRangeIsSquash`). */
  function SquashRange(text: string, lo: int, hi: int): string
    requires 0 <= lo <= hi <= |text|
    decreases hi - lo
  {
    if lo == hi then []
    else if IsBoundary(text[lo]) then " " + SquashRange(text, SkipTo(text, lo + 1, hi), hi)
    else [text[lo]] + SquashRange(text, lo + 1, hi)
  }

  /** A word of the text is kept as it is. */
  lemma {:induction false} SquashRangeWord(text: string, lo: int, m: int, hi: int, w: string)
    requires 0 <= lo <= m <= hi <= |text| && |w| == m - lo
    requires forall t :: 0 <= t < |w| ==> w[t] == text[lo + t] && !IsBoundary(w[t])
    ensures SquashRange(text, lo, hi) == w + SquashRange(text, m, hi)
    decreases m - lo
  {
    if lo < m {
      assert w[0] == text[lo];
      SquashRangeWord(text, lo + 1, m, hi, w[1..]);
      assert w == [w[0]] + w[1..];
    } else {
      assert w == [];
    }
  }

  /** A maximal run of boundary characters is skipped as a whole. */
  lemma {:induction false} SkipToRun(text: string, lo: int, m: int, hi: int)
    requires 0 <= lo <= m <= hi <= |text|
    requires forall t :: lo <= t < m ==> IsBoundary(text[t])
    requires m == hi || !IsBoundary(text[m])
    ensures SkipTo(text, lo, hi) == m
    decreases m - lo
  {
    if lo < m {
      SkipToRun(text, lo + 1, m, hi);
    }
  }

  /** A maximal run of boundary characters becomes one space. */
  lemma SquashRangeRun(text: string, lo: int, m: int, hi: int)
    requires 0 <= lo < m <= hi <= |text|
    requires forall t :: lo <= t < m ==> IsBoundary(text[t])
    requires m == hi || !IsBoundary(text[m])
    ensures SquashRange(text, lo, hi) == " " + SquashRange(text, m, hi)
  {
    SkipToRun(text, lo + 1, m, hi);
  }

  lemma {:induction false} DropToSkip(text: string, lo: int, hi: int)
    requires 0 <= lo <= hi <= |text|
    ensures DropBoundaries(text[lo..hi]) == text[SkipTo(text, lo, hi)..hi]
    decreases hi - lo
  {
    if lo < hi && IsBoundary(text[lo]) {
      assert text[lo..hi][1..] == text[lo + 1..hi];
      DropToSkip(text, lo + 1, hi);
    }
  }

  /** The index computation agrees with `Squash` on the slice. */
  lemma {:induction false} SquashRangeIsSquash(text: string, lo: int, hi: int)
    requires 0 <= lo <= hi <= |text|
    ensures SquashRange(text, lo, hi) == Squash(text[lo..hi])
    decreases hi - lo
  {
    if lo < hi {
      var s := text[lo..hi];
      assert s[0] == text[lo];
      if IsBoundary(text[lo]) {
        assert s[1..] == text[lo + 1..hi];
        DropToSkip(text, lo + 1, hi);
        assert DropBoundaries(s) == DropBoundaries(s[1..]);
        SquashRangeIsSquash(text, SkipTo(text, lo + 1, hi), hi);
      } else {
        assert s[1..] == text[lo + 1..hi];
        SquashRangeIsSquash(text, lo + 1, hi);
      }
    } else {
      assert text[lo..hi] == [];
    }
  }

  /** A memo entry answers a lookup at its index, whatever text is being
      scanned: the lookup `pull_word_from_end` makes before scanning. */
  function Memo(cache: map<int, Pulled>, text: string, index: int): (p: Pulled)
    requires index < |text|
    ensures CacheFor(cache, text) ==> p == PullWord(text, index)
  {
    if index in cache then cache[index] else PullWord(text, index)
  }

  /** Every memo entry is what a fresh scan of `text` would produce. */
  ghost predicate CacheFor(cache: map<int, Pulled>, text: string)
  {
    forall i :: i in cache ==> i < |text| && cache[i] == PullWord(text, i)
  }

  /** `after` holds every entry of `before`, unchanged: the memo only
      grows. */
  ghost predicate Keeps(before: map<int, Pulled>, after: map<int, Pulled>)
  {
    forall i :: i in before ==> i in after && after[i] == before[i]
  }

  lemma KeepsTrans(a: map<int, Pulled>, b: map<int, Pulled>, c: map<int, Pulled>)
    requires Keeps(a, b) && Keeps(b, c)
    ensures Keeps(a, c)
  {
  }

  lemma ScanOfParis()
    ensures PullWord("Paris", 4) == Pulled("Paris", -1, 0)
  {
    var paris := "Paris";
    assert !IsBoundary('P') && !IsBoundary('a') && !IsBoundary('r');
    assert !IsBoundary('i') && !IsBoundary('s');
    assert SkipRun(paris, 4) == 0;
    assert WordStart(paris, 0) == -1;
    assert WordStart(paris, 1) == -1;
    assert WordStart(paris, 2) == -1;
    assert WordStart(paris, 3) == -1;
    assert WordStart(paris, 4) == -1;
    assert paris[0 .. 5] == paris;
  }

  lemma ScanOfRome()
    ensures PullWord("Rome.", 4) == Pulled("Rome", -1, 1)
  {
    var rome := "Rome.";
    assert !IsBoundary('R') && !IsBoundary('o') && !IsBoundary('m');
    assert !IsBoundary('e') && IsBoundary('.');
    assert SkipRun(rome, 3) == 0;
    assert SkipRun(rome, 4) == 1;
    assert WordStart(rome, 0) == -1;
    assert WordStart(rome, 1) == -1;
    assert WordStart(rome, 2) == -1;
    assert WordStart(rome, 3) == -1;
    assert rome[0 .. 4] == "Rome";
  }

  /** The memo is keyed by index only and is never cleared: an entry left
      by a scan of "Paris" answers a later lookup in "Rome." at the same
      index with the word "Paris", where a fresh scan reads "Rome". */
  lemma StaleMemoAnswersAnotherText()
    ensures Memo(map[4 := PullWord("Paris", 4)], "Rome.", 4) == Pulled("Paris", -1, 0)
    ensures PullWord("Rome.", 4) == Pulled("Rome", -1, 1)
  {
    ScanOfParis();
    ScanOfRome();
  }
}
