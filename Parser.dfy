/**
 * `GeodictParser`: the object that holds the gazetteer and the word memo
 * `tokenized_words`, and whose methods scan a text for locations.
 *
 * Each method is proved against the specification function of its module:
 * `PullWordFromEnd` against `Tokenizer.Memo`, the matchers against
 * `Matchers.MatchToken`, `FindLocationsInText` against
 * `Sequences.Locations`. The memo is keyed by index alone, so every method
 * that reads it requires `CacheFor(tokenizedWords, text)`: each entry is
 * what a fresh scan of this text gives.
 */
module Parser {
  import opened Chars
  import opened Optional
  import opened Tokenizer
  import opened Gazetteer
  import opened Tokens
  import opened Growth
  import opened Matchers
  import opened Sequences

  class GeodictParser {
    /** The country and region suffix indices, the city query and the
        configuration, all read-only after construction. */
    const gazetteer: Gazetteer
    /** `token_sequences`: the location patterns, tried in order. */
    const tokenSequences: seq<seq<Category>>
    /** `tokenized_words`: scan results by starting index. */
    var tokenizedWords: map<int, Pulled>

    constructor(g: Gazetteer)
      ensures gazetteer == g && tokenSequences == TokenSequences && tokenizedWords == map[]
    {
      gazetteer := g;
      tokenSequences := TokenSequences;
      tokenizedWords := map[];
    }

    /** `pull_word_from_end`: the memo entry for `index` if there is one;
        otherwise a scan leftward that skips trailing boundary characters,
        collects the word, and stops at the next boundary or at the start
        of the text, stored in the memo before it is returned. */
    method PullWordFromEnd(text: string, index: int) returns (p: Pulled)
      requires index < |text|
      modifies this
      ensures p == Memo(old(tokenizedWords), text, index)
      ensures tokenizedWords == old(tokenizedWords)[index := p]
      ensures CacheFor(old(tokenizedWords), text) ==> p == PullWord(text, index) && CacheFor(tokenizedWords, text)
      ensures Keeps(old(tokenizedWords), tokenizedWords)
    {
      if index in tokenizedWords {
        p := tokenizedWords[index];
        return;
      }
      p := ScanWordFromEnd(text, index);
      tokenizedWords := tokenizedWords[index := p];
    }

    /** The scan of `pull_word_from_end` when the memo has no answer: walk
        left over the boundary characters, collect the word, and stop at
        the next boundary or at the start of the text. */
    static method ScanWordFromEnd(text: string, index: int) returns (p: Pulled)
      requires index < |text|
      ensures p == PullWord(text, index)
    {
      var foundWord := "";
      var currentIndex := index;
      var endSkipped := 0;
      while currentIndex >= 0
        invariant index < 0 ==> currentIndex == index && foundWord == "" && endSkipped == 0
        invariant index >= 0 ==> -1 <= currentIndex <= index
        invariant index >= 0 && foundWord == "" ==>
          endSkipped == index - currentIndex && endSkipped + SkipRun(text, currentIndex) == SkipRun(text, index)
        invariant foundWord != "" ==>
          && index >= 0
          && endSkipped == SkipRun(text, index)
          && currentIndex < index - endSkipped
          && WordStart(text, currentIndex) == WordStart(text, index - endSkipped)
          && WordAt(text, index - endSkipped) == WordAt(text, currentIndex) + foundWord
        decreases currentIndex + 1
      {
        var currentChar := text[currentIndex];
        currentIndex := currentIndex - 1;
        if IsBoundary(currentChar) {
          if foundWord == "" {
            endSkipped := endSkipped + 1;
            continue;
          } else {
            currentIndex := currentIndex + 1;
            break;
          }
        }
        foundWord := [currentChar] + foundWord;
      }
      p := Pulled(foundWord, currentIndex, endSkipped);
    }

    /** `pull_word_from_end` as the matchers and the scan call it, on the
        text whose scans fill the memo: the answer is the scan of the text
        itself, and the memo stays filled from that text. */
    method ReadWordFromEnd(text: string, index: int) returns (p: Pulled)
      requires index < |text|
      requires CacheFor(tokenizedWords, text)
      modifies this
      ensures p == PullWord(text, index)
      ensures tokenizedWords == old(tokenizedWords)[index := p]
      ensures CacheFor(tokenizedWords, text) && Keeps(old(tokenizedWords), tokenizedWords)
    {
      p := PullWordFromEnd(text, index);
    }

    /** One test of the growth loop on the candidate of `count` words:
        either the search ends here, with `h` as its answer, or it goes on
        to the candidate of `count + 1` words. */
    method TestCandidate<R>(names: map<string, R>, currentWord: string, currentIndex: int, count: nat,
                            wordMax: nat, ghost text: string, ghost first: Pulled)
      returns (stop: bool, h: Option<Hit<R>>)
      requires 1 <= count <= wordMax && first.next < |text|
      requires CandAt(text, first.word, first.next, count) == Candidate(currentWord, currentIndex)
      ensures stop ==> h == GrowFrom(text, names, first.word, first.next, count, wordMax)
      ensures h.Some? ==> stop && h.value.words == count
      ensures !stop ==> (count < wordMax
        && GrowFrom(text, names, first.word, first.next, count + 1, wordMax)
           == GrowFrom(text, names, first.word, first.next, count, wordMax))
    {
      GrowFromAt(text, names, first.word, first.next, count, wordMax);
      if currentWord == "" {
        return true, None;
      }
      if !IsLowerChar(currentWord[0]) {
        var nameKey := Lower(currentWord);
        if nameKey in names {
          return true, Some(Hit(names[nameKey], currentWord, currentIndex + 1, count));
        }
        if currentIndex < 0 {
          return true, None;
        }
      }
      if count == wordMax {
        return true, None;
      }
      return false, None;
    }

    /** The growth loop shared by `is_country`, `is_region` and `is_city`,
        from the candidate `first` (one word) on: accept a capitalised
        candidate whose lowercased form is in `names`, skip a lowercase one,
        stop at the start of the text, and otherwise pull one more word and
        join it in front with a space, up to `word_max` words; `pulls` counts
        the words pulled, the first one included. */
    method GrowName<R>(text: string, names: map<string, R>, first: Pulled)
      returns (h: Option<Hit<R>>, ghost pulls: nat)
      requires first.next < |text| && 1 <= gazetteer.wordMax
      requires CacheFor(tokenizedWords, text)
      modifies this
      ensures h == GrowFrom(text, names, first.word, first.next, 1, gazetteer.wordMax)
      ensures 1 <= pulls <= gazetteer.wordMax
      ensures h.Some? ==> h.value.words == pulls
      ensures CacheFor(tokenizedWords, text) && Keeps(old(tokenizedWords), tokenizedWords)
    {
      var wordMax := gazetteer.wordMax;
      var currentWord := first.word;
      var currentIndex := first.next;
      var pulledWordCount := 1;
      while true
        invariant 1 <= pulledWordCount <= wordMax
        invariant currentIndex < |text|
        invariant CandAt(text, first.word, first.next, pulledWordCount) == Candidate(currentWord, currentIndex)
        invariant GrowFrom(text, names, first.word, first.next, pulledWordCount, wordMax)
               == GrowFrom(text, names, first.word, first.next, 1, wordMax)
        invariant CacheFor(tokenizedWords, text) && Keeps(old(tokenizedWords), tokenizedWords)
        decreases wordMax - pulledWordCount
      {
        var stop, found := TestCandidate(names, currentWord, currentIndex, pulledWordCount, wordMax, text, first);
        if stop {
          return found, pulledWordCount;
        }
        ghost var memo := tokenizedWords;
        currentWord, currentIndex := ExtendCandidate(text, first, pulledWordCount, currentWord, currentIndex);
        KeepsTrans(old(tokenizedWords), memo, tokenizedWords);
        pulledWordCount := pulledWordCount + 1;
      }
    }

    /** One more word for the growth loop: the word pulled from the
        candidate's index, joined in front with a space, gives the
        candidate of `count + 1` words. */
    method ExtendCandidate(text: string, ghost first: Pulled, ghost count: nat, word: string, index: int)
      returns (longer: string, next: int)
      requires 1 <= count && first.next < |text| && index < |text|
      requires CandAt(text, first.word, first.next, count) == Candidate(word, index)
      requires CacheFor(tokenizedWords, text)
      modifies this
      ensures CandAt(text, first.word, first.next, count + 1) == Candidate(longer, next)
      ensures next < |text|
      ensures CacheFor(tokenizedWords, text) && Keeps(old(tokenizedWords), tokenizedWords)
    {
      CandAtNext(text, first.word, first.next, count);
      var pulled := ReadWordFromEnd(text, index);
      longer, next := pulled.word + " " + word, pulled.next;
    }

    /** `is_country`. */
    method IsCountry(text: string, textStartingIndex: int, previousResult: Option<seq<Token>>)
      returns (r: Option<seq<Token>>)
      requires textStartingIndex < |text|
      requires CacheFor(tokenizedWords, text)
      modifies this
      ensures r == MatchToken(gazetteer, COUNTRY, text, textStartingIndex, previousResult)
      ensures CacheFor(tokenizedWords, text) && Keeps(old(tokenizedWords), tokenizedWords)
    {
      if gazetteer.wordMax == 0 {
        return None;
      }
      var first := ReadWordFromEnd(text, textStartingIndex);
      var wordEndIndex := textStartingIndex - first.skipped;
      var lastWord := Lower(first.word);
      if lastWord !in gazetteer.countries {
        return None;
      }
      var nameMap := BuildNameMap(gazetteer.countries[lastWord], CountryName);
      ghost var memo := tokenizedWords;
      var found, _ := GrowName(text, nameMap, first);
      KeepsTrans(old(tokenizedWords), memo, tokenizedWords);
      if found.None? {
        return None;
      }
      var row := found.value.row;
      var token := Token(CountryToken(row.countryCode), row.lat, row.lon, row.geonameid,
                         found.value.matched, found.value.start, wordEndIndex);
      r := Some([token] + TokensOf(previousResult));
    }

    /** `is_region`: the candidate rows are narrowed to the country of the
        last COUNTRY token of the previous result, when there is one. */
    method IsRegion(text: string, textStartingIndex: int, previousResult: Option<seq<Token>>)
      returns (r: Option<seq<Token>>)
      requires textStartingIndex < |text|
      requires CacheFor(tokenizedWords, text)
      modifies this
      ensures r == MatchToken(gazetteer, REGION, text, textStartingIndex, previousResult)
      ensures CacheFor(tokenizedWords, text) && Keeps(old(tokenizedWords), tokenizedWords)
    {
      var countryCode, _ := SequenceCodes(previousResult);
      if gazetteer.wordMax == 0 {
        return None;
      }
      var first := ReadWordFromEnd(text, textStartingIndex);
      var wordEndIndex := textStartingIndex - first.skipped;
      var lastWord := Lower(first.word);
      if lastWord !in gazetteer.regions {
        return None;
      }
      var nameMap := RegionNames(lastWord, countryCode);
      ghost var memo := tokenizedWords;
      var found, _ := GrowName(text, nameMap, first);
      KeepsTrans(old(tokenizedWords), memo, tokenizedWords);
      assert found == RegionHit(gazetteer, text, textStartingIndex, countryCode);
      if found.None? {
        return None;
      }
      var row := found.value.row;
      var token := Token(RegionToken(row.regionCode), row.lat, row.lon, row.geonameid,
                         found.value.matched, found.value.start, wordEndIndex);
      r := Some([token] + TokensOf(previousResult));
    }

    /** The `name_map` of `is_region`: the rows filed under `lastWord`,
        narrowed to the known country when there is one, by lowercased
        name. */
    method RegionNames(lastWord: string, countryCode: Option<string>) returns (nameMap: map<string, RegionRow>)
      requires lastWord in gazetteer.regions
      ensures nameMap == NameMap(RegionRows(gazetteer, lastWord, countryCode), RegionName)
    {
      var candidates := gazetteer.regions[lastWord];
      if countryCode.Some? {
        candidates := FilterByCountry(candidates, countryCode.value);
      }
      nameMap := BuildNameMap(candidates, RegionName);
    }

    /** `is_city`: the database is asked with the last COUNTRY and REGION
        codes of the previous result. */
    method IsCity(text: string, textStartingIndex: int, previousResult: Option<seq<Token>>)
      returns (r: Option<seq<Token>>)
      requires textStartingIndex < |text|
      requires CacheFor(tokenizedWords, text)
      modifies this
      ensures r == MatchToken(gazetteer, CITY, text, textStartingIndex, previousResult)
      ensures CacheFor(tokenizedWords, text) && Keeps(old(tokenizedWords), tokenizedWords)
    {
      var countryCode, regionCode := SequenceCodes(previousResult);
      if gazetteer.wordMax == 0 {
        return None;
      }
      var first := ReadWordFromEnd(text, textStartingIndex);
      var wordEndIndex := textStartingIndex - first.skipped;
      var nameMap := gazetteer.cities(first.word, first.word, countryCode, regionCode);
      if |nameMap| < 1 {
        return None;
      }
      ghost var memo := tokenizedWords;
      var found, _ := GrowName(text, nameMap, first);
      KeepsTrans(old(tokenizedWords), memo, tokenizedWords);
      if found.None? {
        return None;
      }
      var row := found.value.row;
      var token := Token(CityToken, row.lat, row.lon, row.geonameid,
                         found.value.matched, found.value.start, wordEndIndex);
      r := Some([token] + TokensOf(previousResult));
    }

    /** `is_location_word`. */
    method IsLocationWord(text: string, textStartingIndex: int, previousResult: Option<seq<Token>>)
      returns (r: Option<seq<Token>>)
      requires textStartingIndex < |text|
      requires CacheFor(tokenizedWords, text)
      modifies this
      ensures r == MatchToken(gazetteer, LOCATION_WORD, text, textStartingIndex, previousResult)
      ensures CacheFor(tokenizedWords, text) && Keeps(old(tokenizedWords), tokenizedWords)
    {
      var pulled := ReadWordFromEnd(text, textStartingIndex);
      if pulled.word == "" {
        return None;
      }
      var currentWord := Lower(pulled.word);
      if currentWord !in gazetteer.locationWords {
        return None;
      }
      r := previousResult;
    }

    /** `token_definitions[cat]['match_function']`, called. */
    method MatchTokenAt(cat: Category, text: string, idx: int, previousResult: Option<seq<Token>>,
                        ghost m: MatchFunction)
      returns (r: Option<seq<Token>>)
      requires idx < |text|
      requires CacheFor(tokenizedWords, text)
      requires Implements(m, gazetteer, text)
      modifies this
      ensures r == m(cat, idx, previousResult)
      ensures CacheFor(tokenizedWords, text) && Keeps(old(tokenizedWords), tokenizedWords)
    {
      match cat {
        case COUNTRY => r := IsCountry(text, idx, previousResult);
        case CITY => r := IsCity(text, idx, previousResult);
        case REGION => r := IsRegion(text, idx, previousResult);
        case LOCATION_WORD => r := IsLocationWord(text, idx, previousResult);
      }
    }

    /** One category of a sequence, matched just before the tokens found
        so far. At the first position, where there are none yet and the
        index is `idx`, the answer comes from `matchCache` when an earlier
        sequence ending in the same category has already asked, and is
        recorded there otherwise. */
    method MatchCachedAt(text: string, tokenName: Category, tokenPosition: nat, tokenIndex: int,
                         tokenResult: Option<seq<Token>>, idx: int,
                         matchCache: map<Category, Option<seq<Token>>>, ghost m: MatchFunction)
      returns (r: Option<seq<Token>>, cache: map<Category, Option<seq<Token>>>)
      requires tokenIndex < |text|
      requires tokenPosition == 0 ==> tokenIndex == idx && tokenResult.None?
      requires CacheFor(tokenizedWords, text)
      requires Implements(m, gazetteer, text)
      requires forall c :: c in matchCache ==> matchCache[c] == m(c, idx, None)
      modifies this
      ensures r == m(tokenName, tokenIndex, tokenResult)
      ensures cache == if tokenPosition == 0 then matchCache[tokenName := r] else matchCache
      ensures CacheFor(tokenizedWords, text) && Keeps(old(tokenizedWords), tokenizedWords)
    {
      cache := matchCache;
      if tokenPosition == 0 && tokenName in matchCache {
        r := matchCache[tokenName];
      } else {
        r := MatchTokenAt(tokenName, text, tokenIndex, tokenResult, m);
        if tokenPosition == 0 {
          cache := cache[tokenName := r];
        }
      }
    }

    /** One pass of the inner loop of `find_locations_in_text`: the
        categories of `sequence` (already reversed) matched one by one, each
        just before the first token found so far, the first of them through
        `matchCache`. */
    method MatchSequenceAt(text: string, sequence: seq<Category>, idx: int,
                           matchCache: map<Category, Option<seq<Token>>>, ghost m: MatchFunction)
      returns (tokenResult: Option<seq<Token>>, cache: map<Category, Option<seq<Token>>>)
      requires idx < |text|
      requires CacheFor(tokenizedWords, text)
      requires Implements(m, gazetteer, text) && Extends(m)
      requires forall c :: c in matchCache ==> matchCache[c] == m(c, idx, None)
      modifies this
      ensures tokenResult == MatchFrom(m, sequence, idx, None)
      ensures forall c :: c in cache ==> cache[c] == m(c, idx, None)
      ensures CacheFor(tokenizedWords, text) && Keeps(old(tokenizedWords), tokenizedWords)
    {
      cache := matchCache;
      tokenResult := None;
      var tokenIndex := idx;
      var tokenPosition := 0;
      var remaining := sequence;
      while remaining != []
        invariant tokenPosition + |remaining| == |sequence|
        invariant tokenIndex < |text|
        invariant CacheFor(tokenizedWords, text) && Keeps(old(tokenizedWords), tokenizedWords)
        invariant forall c :: c in cache ==> cache[c] == m(c, idx, None)
        invariant tokenPosition == 0 ==> tokenIndex == idx && tokenResult.None?
        invariant tokenPosition > 0 ==>
          tokenResult.Some? && tokenResult.value != [] && tokenResult.value[0].start == tokenIndex + 1
        invariant MatchFrom(m, sequence, idx, None) == MatchFrom(m, remaining, tokenIndex, tokenResult)
      {
        var tokenName := remaining[0];
        MatchFromCons(m, remaining, tokenIndex, tokenResult);
        ghost var memo := tokenizedWords;
        tokenResult, cache := MatchCachedAt(text, tokenName, tokenPosition, tokenIndex, tokenResult, idx, cache, m);
        KeepsTrans(old(tokenizedWords), memo, tokenizedWords);
        if tokenResult.None? {
          break;
        }
        tokenIndex := tokenResult.value[0].start - 1;
        tokenPosition := tokenPosition + 1;
        remaining := remaining[1..];
      }
    }

    /** The loop over `token_sequences` at one scan position: the first
        sequence that matches in full, with a fresh `match_cache`. */
    method FirstMatchAt(text: string, idx: int, ghost m: MatchFunction) returns (tokenResult: Option<seq<Token>>)
      requires idx < |text|
      requires CacheFor(tokenizedWords, text)
      requires Implements(m, gazetteer, text) && Extends(m)
      modifies this
      ensures tokenResult == FirstMatch(m, tokenSequences, idx)
      ensures CacheFor(tokenizedWords, text) && Keeps(old(tokenizedWords), tokenizedWords)
    {
      var matchCache: map<Category, Option<seq<Token>>> := map[];
      tokenResult := None;
      var s := 0;
      while s < |tokenSequences|
        invariant 0 <= s <= |tokenSequences|
        invariant CacheFor(tokenizedWords, text) && Keeps(old(tokenizedWords), tokenizedWords)
        invariant forall c :: c in matchCache ==> matchCache[c] == m(c, idx, None)
        invariant FirstMatch(m, tokenSequences, idx) == FirstMatch(m, tokenSequences[s..], idx)
        invariant tokenResult.None?
      {
        var tokenSequence := Reverse(tokenSequences[s]);
        ghost var memo := tokenizedWords;
        tokenResult, matchCache := MatchSequenceAt(text, tokenSequence, idx, matchCache, m);
        KeepsTrans(old(tokenizedWords), memo, tokenizedWords);
        assert tokenSequences[s..][0] == tokenSequences[s];
        assert tokenSequences[s..][1..] == tokenSequences[s + 1..];
        if tokenResult.Some? {
          return;
        }
        s := s + 1;
      }
    }

    /** One pass of the loop of `find_locations_in_text` at `currentIndex`,
        for match functions `m` that answer as `token_definitions` does:
        where the word there could end a country or a region name, the
        first token sequence that matches, with the walk going on before
        its first token; otherwise nothing, with the walk going on one word
        to the left. */
    method ScanStep(text: string, currentIndex: int, ghost m: MatchFunction)
      returns (location: Option<seq<Token>>, next: int)
      requires 0 <= currentIndex < |text|
      requires CacheFor(tokenizedWords, text)
      requires Implements(m, gazetteer, text) && Extends(m)
      modifies this
      ensures Pass(location, next) == PassAt(gazetteer, m, tokenSequences, text, currentIndex)
      ensures CacheFor(tokenizedWords, text) && Keeps(old(tokenizedWords), tokenizedWords)
    {
      var pulled := ReadWordFromEnd(text, currentIndex);
      var lowerWord := Lower(pulled.word);
      var couldBeCountry := lowerWord in gazetteer.countries;
      var couldBeRegion := lowerWord in gazetteer.regions;
      if !couldBeCountry && !couldBeRegion {
        return None, pulled.next;
      }
      ghost var memo := tokenizedWords;
      var tokenResult := FirstMatchAt(text, currentIndex, m);
      KeepsTrans(old(tokenizedWords), memo, tokenizedWords);
      if tokenResult.None? {
        memo := tokenizedWords;
        var again := ReadWordFromEnd(text, currentIndex);
        KeepsTrans(old(tokenizedWords), memo, tokenizedWords);
        return None, again.next;
      }
      FirstMatchIsChain(m, tokenSequences, currentIndex);
      location, next := tokenResult, tokenResult.value[0].start - 1;
    }

    /** The loop of `find_locations_in_text`, with `step` standing for its
        passes: from the end of the text leftward, the locations collected
        last first and returned in document order. */
    method ScanLocations(text: string, ghost m: MatchFunction, ghost step: Walker) returns (result: seq<seq<Token>>)
      requires CacheFor(tokenizedWords, text)
      requires Implements(m, gazetteer, text) && Follows(step, gazetteer, m, tokenSequences, text)
      modifies this
      ensures result == Walk(step, |text| - 1)
      ensures CacheFor(tokenizedWords, text) && Keeps(old(tokenizedWords), tokenizedWords)
    {
      var currentIndex := |text| - 1;
      var found: seq<seq<Token>> := [];
      while currentIndex >= 0
        invariant -1 <= currentIndex < |text|
        invariant CacheFor(tokenizedWords, text) && Keeps(old(tokenizedWords), tokenizedWords)
        invariant Walk(step, |text| - 1) == Walk(step, currentIndex) + Reverse(found)
        decreases currentIndex + 1
      {
        ghost var memo := tokenizedWords;
        var location, next := ScanStep(text, currentIndex, m);
        KeepsTrans(old(tokenizedWords), memo, tokenizedWords);
        assert Pass(location, next) == step(currentIndex);
        if location.Some? {
          ReverseAppend(found, [location.value]);
          assert Reverse([location.value]) == [location.value];
          found := found + [location.value];
        }
        currentIndex := next;
      }
      result := Reverse(found);
    }

    /** `find_locations_in_text`. */
    method FindLocationsInText(text: string) returns (result: seq<seq<Token>>)
      requires CacheFor(tokenizedWords, text)
      modifies this
      ensures result == Locations(gazetteer, tokenSequences, text)
      ensures CacheFor(tokenizedWords, text) && Keeps(old(tokenizedWords), tokenizedWords)
    {
      ghost var m := Dispatch(gazetteer, text);
      PassesFollow(gazetteer, m, tokenSequences, text);
      result := ScanLocations(text, m, Passes(gazetteer, m, tokenSequences, text));
    }

    /** `find_locations_in_text` with the word memo emptied first, so that
        entries left by an earlier text cannot answer for this one. */
    method FindLocationsFresh(text: string) returns (result: seq<seq<Token>>)
      modifies this
      ensures result == Locations(gazetteer, tokenSequences, text)
      ensures CacheFor(tokenizedWords, text)
    {
      tokenizedWords := map[];
      result := FindLocationsInText(text);
    }
  }
}
