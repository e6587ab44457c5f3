/**
 * The four match functions of `token_definitions`: `is_country`,
 * `is_region`, `is_city` and `is_location_word`, as functions of the
 * gazetteer, the text, the index the match starts from, and the result of
 * the tokens already matched in the sequence (`previous_result`).
 *
 * A matcher pulls the word that ends the fragment, looks it up, and grows
 * the name leftward (module `Growth`). On success it puts a new token in
 * front of `found_tokens`. The looping implementations are the methods of
 * `Parser.GeodictParser`; these functions are their specifications.
 */
module Matchers {
  import opened Chars
  import opened Optional
  import opened Tokenizer
  import opened Gazetteer
  import opened Tokens
  import opened Growth

  /** The candidate rows of `is_region`: those filed under the last word,
      narrowed to the known country when there is one. */
  function RegionRows(g: Gazetteer, last: string, countryCode: Option<string>): (rows: seq<RegionRow>)
    requires last in g.regions
    ensures countryCode.None? ==> rows == g.regions[last]
    ensures forall r :: r in rows <==>
      r in g.regions[last] && (countryCode.Some? ==> Lower(r.countryCode) == Lower(countryCode.value))
  {
    if countryCode.Some? then
      var kept := InCountry(g.regions[last], countryCode.value);
      assert forall r :: r in kept <==>
        r in g.regions[last] && Lower(r.countryCode) == Lower(countryCode.value) by {
        forall r {
          InCountryMembers(g.regions[last], countryCode.value, r);
        }
      }
      kept
    else g.regions[last]
  }

  /** The name found by `is_country`: no search when `word_max` is zero or
      the last word ends no country name. */
  function CountryHit(g: Gazetteer, text: string, idx: int): (h: Option<Hit<CountryRow>>)
    requires idx < |text|
    ensures h.Some? ==> 1 <= h.value.words <= g.wordMax
  {
    if g.wordMax == 0 then None
    else
      var p := PullWord(text, idx);
      var last := Lower(p.word);
      if last !in g.countries then None
      else GrowFrom(text, NameMap(g.countries[last], CountryName), p.word, p.next, 1, g.wordMax)
  }

  /** The name found by `is_region`, given the country code read from the
      previous result. */
  function RegionHit(g: Gazetteer, text: string, idx: int, countryCode: Option<string>): (h: Option<Hit<RegionRow>>)
    requires idx < |text|
    ensures h.Some? ==> 1 <= h.value.words <= g.wordMax
  {
    if g.wordMax == 0 then None
    else
      var p := PullWord(text, idx);
      var last := Lower(p.word);
      if last !in g.regions then None
      else GrowFrom(text, NameMap(RegionRows(g, last, countryCode), RegionName), p.word, p.next, 1, g.wordMax)
  }

  /** The name found by `is_city`: the database is asked for the cities
      that could end in the pulled word, and an empty answer ends the search. */
  function CityHit(g: Gazetteer, text: string, idx: int,
                   countryCode: Option<string>, regionCode: Option<string>): (h: Option<Hit<CityRow>>)
    requires idx < |text|
    ensures h.Some? ==> 1 <= h.value.words <= g.wordMax
  {
    if g.wordMax == 0 then None
    else
      var p := PullWord(text, idx);
      var names := g.cities(p.word, p.word, countryCode, regionCode);
      if |names| < 1 then None
      else GrowFrom(text, names, p.word, p.next, 1, g.wordMax)
  }

  /** `end_index` of a token: the start index less the trailing boundary
      characters the first pull skipped. */
  function EndOf(text: string, idx: int): (e: int)
    requires idx < |text|
    ensures e <= idx && (idx >= 0 ==> -1 <= e)
    ensures e >= 0 ==> !IsBoundary(text[e])
    ensures forall j :: 0 <= j && e < j <= idx ==> IsBoundary(text[j])
  {
    if idx >= 0 then SkipRunIsMaximal(text, idx); idx - PullWord(text, idx).skipped
    else idx - PullWord(text, idx).skipped
  }

  function CountryMatch(g: Gazetteer, text: string, idx: int): (t: Option<Token>)
    requires idx < |text|
    ensures t.Some? <==> CountryHit(g, text, idx).Some?
    ensures t.Some? ==> t.value.kind.CountryToken? && t.value.end == EndOf(text, idx)
  {
    match CountryHit(g, text, idx)
    case None => None
    case Some(h) =>
      Some(Token(CountryToken(h.row.countryCode), h.row.lat, h.row.lon, h.row.geonameid,
                 h.matched, h.start, EndOf(text, idx)))
  }

  function RegionMatch(g: Gazetteer, text: string, idx: int, countryCode: Option<string>): (t: Option<Token>)
    requires idx < |text|
    ensures t.Some? <==> RegionHit(g, text, idx, countryCode).Some?
    ensures t.Some? ==> t.value.kind.RegionToken? && t.value.end == EndOf(text, idx)
  {
    match RegionHit(g, text, idx, countryCode)
    case None => None
    case Some(h) =>
      Some(Token(RegionToken(h.row.regionCode), h.row.lat, h.row.lon, h.row.geonameid,
                 h.matched, h.start, EndOf(text, idx)))
  }

  function CityMatch(g: Gazetteer, text: string, idx: int,
                     countryCode: Option<string>, regionCode: Option<string>): (t: Option<Token>)
    requires idx < |text|
    ensures t.Some? <==> CityHit(g, text, idx, countryCode, regionCode).Some?
    ensures t.Some? ==> t.value.kind.CityToken? && t.value.end == EndOf(text, idx)
  {
    match CityHit(g, text, idx, countryCode, regionCode)
    case None => None
    case Some(h) =>
      Some(Token(CityToken, h.row.lat, h.row.lon, h.row.geonameid,
                 h.matched, h.start, EndOf(text, idx)))
  }

  /** The result a matcher returns after a match: the new token in front of
      the tokens of the previous result, or a fresh result holding it alone. */
  function Prepend(t: Option<Token>, previous: Option<seq<Token>>): (r: Option<seq<Token>>)
    ensures r.Some? <==> t.Some?
    ensures r.Some? ==>
      |r.value| == 1 + |TokensOf(previous)| && r.value[0] == t.value && r.value[1..] == TokensOf(previous)
  {
    if t.None? then None else Some([t.value] + TokensOf(previous))
  }

  /** `is_location_word`: the previous result, unchanged, when the word
      ending the fragment is a location word ("at", "in", ...); no result
      otherwise. It adds no token, so it never matches on its own. */
  function LocationWord(g: Gazetteer, text: string, idx: int, previous: Option<seq<Token>>): (r: Option<seq<Token>>)
    requires idx < |text|
    ensures r.Some? <==>
      previous.Some? && PullWord(text, idx).word != "" && Lower(PullWord(text, idx).word) in g.locationWords
    ensures r.Some? ==> r == previous
  {
    var p := PullWord(text, idx);
    if p.word == "" then None
    else if Lower(p.word) !in g.locationWords then None
    else previous
  }

  /** `match_function(self, text, token_index, token_result)` for the
      category `cat`. `is_city` narrows its query by the last country and
      region codes of the previous result, `is_region` by the country code. */
  function MatchToken(g: Gazetteer, cat: Category, text: string, idx: int,
                      previous: Option<seq<Token>>): (r: Option<seq<Token>>)
    requires idx < |text|
    ensures cat == LOCATION_WORD && r.Some? ==> r == previous
    ensures cat != LOCATION_WORD && r.Some? ==>
      |r.value| == 1 + |TokensOf(previous)| && r.value[1..] == TokensOf(previous)
  {
    var tokens := TokensOf(previous);
    match cat
    case COUNTRY => Prepend(CountryMatch(g, text, idx), previous)
    case REGION => Prepend(RegionMatch(g, text, idx, CountryCodeIn(tokens)), previous)
    case CITY => Prepend(CityMatch(g, text, idx, CountryCodeIn(tokens), RegionCodeIn(tokens)), previous)
    case LOCATION_WORD => LocationWord(g, text, idx, previous)
  }

  /** Every candidate starts just after a boundary character or at the
      start of the text, when the first pull stopped at one. */
  lemma {:induction false} CandAtStartsAfterBoundary(text: string, first: string, firstNext: int, k: nat)
    requires 1 <= k && firstNext < |text|
    requires firstNext == -1 || (0 <= firstNext && IsBoundary(text[firstNext]))
    ensures CandAt(text, first, firstNext, k).index == -1
         || (0 <= CandAt(text, first, firstNext, k).index && IsBoundary(text[CandAt(text, first, firstNext, k).index]))
    decreases k
  {
    if k > 1 {
      CandAtStartsAfterBoundary(text, first, firstNext, k - 1);
      PullWordIsPull(text, CandAt(text, first, firstNext, k - 1).index);
    }
  }

  /** Where a name found from `idx` lies: it starts at a word start, ends at
      the last character of the first pulled word (the trailing boundary
      characters dropped), and lies within `[0, idx]`. Its first letter is
      not lowercase. */
  lemma HitSpan<R>(text: string, idx: int, names: map<string, R>, wordMax: nat)
    requires 1 <= wordMax && idx < |text|
    ensures var p := PullWord(text, idx);
      var h := GrowFrom(text, names, p.word, p.next, 1, wordMax);
      h.Some? ==>
        && 0 <= h.value.start <= EndOf(text, idx) <= idx
        && (h.value.start == 0 || IsBoundary(text[h.value.start - 1]))
        && !IsBoundary(text[EndOf(text, idx)])
        && (forall j :: EndOf(text, idx) < j <= idx ==> IsBoundary(text[j]))
        && h.value.matched != "" && !IsLowerChar(h.value.matched[0])
  {
    var p := PullWord(text, idx);
    var h := GrowFrom(text, names, p.word, p.next, 1, wordMax);
    if h.Some? {
      GrowFromHit(text, names, p.word, p.next, 1, wordMax);
      if p.word == "" {
        GrowFromEmptyFirst(text, names, p.next, wordMax);
      }
      PullWordIsPull(text, idx);
      CandAtStartsAfterBoundary(text, p.word, p.next, h.value.words);
      assert p.word[|p.word| - 1] == text[EndOf(text, idx)];
    }
  }

  /** Every candidate covers the text from its index to the end of the
      first word; past the start of the text each pull adds one more
      leading space. */
  lemma {:induction false} CandAtCovers(text: string, first: string, firstNext: int, e: int, k: nat)
    returns (j: nat)
    requires 1 <= k && firstNext < |text| && e < |text|
    requires Covers(text, e, Candidate(first, firstNext), 0)
    ensures Covers(text, e, CandAt(text, first, firstNext, k), j)
    ensures 2 <= j ==> LeadBefore(text, first, firstNext, k)
    decreases k
  {
    if k == 1 {
      j := 0;
    } else {
      var j' := CandAtCovers(text, first, firstNext, e, k - 1);
      j := CandAtStep(text, first, firstNext, e, k, j');
      if 1 <= j' {
        CoversLead(text, e, CandAt(text, first, firstNext, k - 1), j');
      }
    }
  }

  lemma CandAtStep(text: string, first: string, firstNext: int, e: int, k: nat, j: nat) returns (j': nat)
    requires 2 <= k && firstNext < |text| && e < |text|
    requires Covers(text, e, CandAt(text, first, firstNext, k - 1), j)
    ensures Covers(text, e, CandAt(text, first, firstNext, k), j')
    ensures j' == if CandAt(text, first, firstNext, k - 1).index < 0 then j + 1 else 0
  {
    CandAtPrior(text, first, firstNext, k);
    var prior := CandAt(text, first, firstNext, k - 1);
    j' := StepCovers(text, e, prior, j, CandAt(text, first, firstNext, k));
  }

  /** The matched name is the text from its start to the end of its first
      word with each run of boundary characters squashed to one space.
      A lowercase candidate at the start of the text does not stop the
      search, so one more pull there puts a space in front of the name;
      the capitalised candidate that makes is the last one tried, so
      there is at most one such space. */
  lemma {:induction false} HitSquashed<R>(text: string, idx: int, names: map<string, R>, wordMax: nat) returns (j: nat)
    requires 1 <= wordMax && idx < |text|
    ensures var p := PullWord(text, idx);
      var h := GrowFrom(text, names, p.word, p.next, 1, wordMax);
      h.Some? ==>
        && 0 <= h.value.start <= EndOf(text, idx) < |text|
        && h.value.matched == Spaces(j) + Squash(text[h.value.start .. EndOf(text, idx) + 1])
        && j <= 1
        && (j == 1 ==> h.value.start == 0)
  {
    j := 0;
    var p := PullWord(text, idx);
    var h := GrowFrom(text, names, p.word, p.next, 1, wordMax);
    if h.Some? {
      GrowFromHit(text, names, p.word, p.next, 1, wordMax);
      GrowFromEmptyFirst(text, names, p.next, wordMax);
      j := AcceptedSquashed(text, idx, names, h.value);
      // A candidate with two leading spaces would come after one with a
      // single leading space at the start of the text, which ends the search.
      GrowAcceptsFirstHit(text, names, p.word, p.next, wordMax, h.value.words);
      LeadStops(text, names, p.word, p.next, h.value.words);
    }
  }

  /** `HitSquashed` for any accepted candidate grown from a non-empty
      first word. */
  lemma AcceptedSquashed<R>(text: string, idx: int, names: map<string, R>, h: Hit<R>) returns (j: nat)
    requires idx < |text| && PullWord(text, idx).word != ""
    requires IsAccepted(text, names, PullWord(text, idx).word, PullWord(text, idx).next, h)
    ensures 0 <= h.start <= EndOf(text, idx) < |text|
    ensures h.matched == Spaces(j) + Squash(text[h.start .. EndOf(text, idx) + 1])
    ensures j > 0 ==> h.start == 0
    ensures 2 <= j ==> LeadBefore(text, PullWord(text, idx).word, PullWord(text, idx).next, h.words)
  {
    j := AcceptedCovers(text, idx, names, h);
    CoveredSquash(text, EndOf(text, idx), h.matched, h.start, j);
  }

  lemma AcceptedCovers<R>(text: string, idx: int, names: map<string, R>, h: Hit<R>) returns (j: nat)
    requires idx < |text| && PullWord(text, idx).word != ""
    requires IsAccepted(text, names, PullWord(text, idx).word, PullWord(text, idx).next, h)
    ensures EndOf(text, idx) < |text| && Covers(text, EndOf(text, idx), Candidate(h.matched, h.start - 1), j)
    ensures 2 <= j ==> LeadBefore(text, PullWord(text, idx).word, PullWord(text, idx).next, h.words)
  {
    var p := PullWord(text, idx);
    var e := EndOf(text, idx);
    assert e == idx - p.skipped;
    FirstCovers(text, idx);
    j := CandAtCovers(text, p.word, p.next, e, h.words);
  }

  /** `Covers` in terms of the slice of the text. */
  lemma CoveredSquash(text: string, e: int, words: string, start: int, j: nat)
    requires e < |text| && Covers(text, e, Candidate(words, start - 1), j)
    ensures 0 <= start <= e + 1 <= |text|
    ensures words == Spaces(j) + Squash(text[start .. e + 1])
  {
    SquashRangeIsSquash(text, start, e + 1);
  }

  /** A single-word name is the text between its start and its end,
      character by character; a name of several words has a space in it,
      whatever boundary characters separate those words in the text. */
  lemma HitText<R>(text: string, idx: int, names: map<string, R>, wordMax: nat)
    requires 1 <= wordMax && idx < |text|
    ensures var p := PullWord(text, idx);
      var h := GrowFrom(text, names, p.word, p.next, 1, wordMax);
      h.Some? ==>
        && (' ' in h.value.matched <==> h.value.words >= 2)
        && (h.value.words == 1 ==>
              && |h.value.matched| == EndOf(text, idx) - h.value.start + 1
              && forall j :: 0 <= j < |h.value.matched| ==> h.value.matched[j] == text[h.value.start + j])
  {
    var p := PullWord(text, idx);
    var h := GrowFrom(text, names, p.word, p.next, 1, wordMax);
    if h.Some? {
      GrowFromHit(text, names, p.word, p.next, 1, wordMax);
      if h.value.words >= 2 {
        CandAtSpaced(text, p.word, p.next, h.value.words);
      }
      if h.value.words == 1 {
        PullWordIsPull(text, idx);
        assert IsBoundary(' ');
        assert h.value.matched == p.word;
      }
    }
  }

  /** The row of a country token is one of the rows filed under the last
      word, and its lowercased name is the lowercased matched text. */
  lemma CountryHitRow(g: Gazetteer, text: string, idx: int)
    requires idx < |text|
    ensures var h := CountryHit(g, text, idx);
      h.Some? ==>
        var last := Lower(PullWord(text, idx).word);
        && last in g.countries
        && h.value.row in g.countries[last]
        && Lower(h.value.row.country) == Lower(h.value.matched)
  {
    if CountryHit(g, text, idx).Some? {
      var p := PullWord(text, idx);
      var last := Lower(p.word);
      NameMapEntries(g.countries[last], CountryName);
      GrowFromHit(text, NameMap(g.countries[last], CountryName), p.word, p.next, 1, g.wordMax);
    }
  }

  /** The row of a region token is one of the rows filed under the last
      word, its lowercased name is the lowercased matched text, and when a
      country is known its country code agrees with it, ignoring case. */
  lemma RegionHitRow(g: Gazetteer, text: string, idx: int, countryCode: Option<string>)
    requires idx < |text|
    ensures var h := RegionHit(g, text, idx, countryCode);
      h.Some? ==>
        var last := Lower(PullWord(text, idx).word);
        && last in g.regions
        && h.value.row in g.regions[last]
        && Lower(h.value.row.region) == Lower(h.value.matched)
        && (countryCode.Some? ==> Lower(h.value.row.countryCode) == Lower(countryCode.value))
  {
    var h := RegionHit(g, text, idx, countryCode);
    if h.Some? {
      var p := PullWord(text, idx);
      var last := Lower(p.word);
      NameMapEntries(RegionRows(g, last, countryCode), RegionName);
      GrowFromHit(text, NameMap(RegionRows(g, last, countryCode), RegionName), p.word, p.next, 1, g.wordMax);
      if countryCode.Some? {
        InCountryMembers(g.regions[last], countryCode.value, h.value.row);
      }
    }
  }

  /** A city token's row is the query's answer for its lowercased matched
      text, the query being asked with the first pulled word and the codes. */
  lemma CityHitRow(g: Gazetteer, text: string, idx: int,
                   countryCode: Option<string>, regionCode: Option<string>)
    requires idx < |text|
    ensures var h := CityHit(g, text, idx, countryCode, regionCode);
      h.Some? ==>
        var w := PullWord(text, idx).word;
        var names := g.cities(w, w, countryCode, regionCode);
        && Lower(h.value.matched) in names
        && names[Lower(h.value.matched)] == h.value.row
  {
    if g.wordMax >= 1 {
      var w := PullWord(text, idx).word;
      GrowFromHit(text, g.cities(w, w, countryCode, regionCode), w, PullWord(text, idx).next, 1, g.wordMax);
    }
  }

  /** Where a new token lies: within `[0, idx]`, starting at a word start,
      ending on the word character that ends the first pulled word, with
      a capitalised matched text. */
  ghost predicate WellPlaced(text: string, idx: int, t: Token)
    requires idx < |text|
  {
    && 0 <= t.start <= t.end <= idx
    && t.end == EndOf(text, idx)
    && (t.start == 0 || IsBoundary(text[t.start - 1]))
    && !IsBoundary(text[t.end])
    && t.matched != "" && !IsLowerChar(t.matched[0])
  }

  lemma CountryMatchPlaced(g: Gazetteer, text: string, idx: int)
    requires idx < |text|
    ensures CountryMatch(g, text, idx).Some? ==> WellPlaced(text, idx, CountryMatch(g, text, idx).value)
  {
    var p := PullWord(text, idx);
    if g.wordMax >= 1 && Lower(p.word) in g.countries {
      HitSpan(text, idx, NameMap(g.countries[Lower(p.word)], CountryName), g.wordMax);
    }
  }

  lemma RegionMatchPlaced(g: Gazetteer, text: string, idx: int, countryCode: Option<string>)
    requires idx < |text|
    ensures RegionMatch(g, text, idx, countryCode).Some? ==>
      WellPlaced(text, idx, RegionMatch(g, text, idx, countryCode).value)
  {
    var p := PullWord(text, idx);
    if g.wordMax >= 1 && Lower(p.word) in g.regions {
      HitSpan(text, idx, NameMap(RegionRows(g, Lower(p.word), countryCode), RegionName), g.wordMax);
    }
  }

  lemma CityMatchPlaced(g: Gazetteer, text: string, idx: int,
                        countryCode: Option<string>, regionCode: Option<string>)
    requires idx < |text|
    ensures CityMatch(g, text, idx, countryCode, regionCode).Some? ==>
      WellPlaced(text, idx, CityMatch(g, text, idx, countryCode, regionCode).value)
  {
    var p := PullWord(text, idx);
    if g.wordMax >= 1 {
      HitSpan(text, idx, g.cities(p.word, p.word, countryCode, regionCode), g.wordMax);
    }
  }

  /** A matcher for a country, region or city puts exactly one new token,
      well placed, in front of the previous tokens. */
  lemma MatchTokenAdds(g: Gazetteer, cat: Category, text: string, idx: int, previous: Option<seq<Token>>)
    requires idx < |text| && cat != LOCATION_WORD
    ensures var r := MatchToken(g, cat, text, idx, previous);
      r.Some? ==>
        && r.value == [r.value[0]] + TokensOf(previous)
        && WellPlaced(text, idx, r.value[0])
  {
    var tokens := TokensOf(previous);
    match cat {
      case COUNTRY => CountryMatchPlaced(g, text, idx);
      case REGION => RegionMatchPlaced(g, text, idx, CountryCodeIn(tokens));
      case CITY => CityMatchPlaced(g, text, idx, CountryCodeIn(tokens), RegionCodeIn(tokens));
    }
  }

  /** With `word_max` zero no matcher for a country, region or city finds
      anything. */
  lemma NoWordsNoMatch(g: Gazetteer, cat: Category, text: string, idx: int, previous: Option<seq<Token>>)
    requires idx < |text| && cat != LOCATION_WORD && g.wordMax == 0
    ensures MatchToken(g, cat, text, idx, previous).None?
  {
  }

  /** `is_country` and `is_region` give up at once when the pulled word ends
      no name in their index, `is_city` when the query for it is empty, and
      nothing is found before the start of the text. */
  lemma UnknownLastWordNoMatch(g: Gazetteer, text: string, idx: int, previous: Option<seq<Token>>)
    requires idx < |text|
    ensures Lower(PullWord(text, idx).word) !in g.countries ==> MatchToken(g, COUNTRY, text, idx, previous).None?
    ensures Lower(PullWord(text, idx).word) !in g.regions ==> MatchToken(g, REGION, text, idx, previous).None?
    ensures var w := PullWord(text, idx).word;
      var tokens := TokensOf(previous);
      |g.cities(w, w, CountryCodeIn(tokens), RegionCodeIn(tokens))| == 0 ==> MatchToken(g, CITY, text, idx, previous).None?
    ensures idx < 0 ==> forall cat :: MatchToken(g, cat, text, idx, previous).None?
  {
    if idx < 0 {
      forall cat ensures MatchToken(g, cat, text, idx, previous).None? {
        if g.wordMax >= 1 && cat != LOCATION_WORD {
          var p := PullWord(text, idx);
          var tokens := TokensOf(previous);
          match cat {
            case COUNTRY =>
              if Lower(p.word) in g.countries {
                HitSpan(text, idx, NameMap(g.countries[Lower(p.word)], CountryName), g.wordMax);
              }
            case REGION =>
              if Lower(p.word) in g.regions {
                HitSpan(text, idx, NameMap(RegionRows(g, Lower(p.word), CountryCodeIn(tokens)), RegionName), g.wordMax);
              }
            case CITY =>
              HitSpan(text, idx, g.cities(p.word, p.word, CountryCodeIn(tokens), RegionCodeIn(tokens)), g.wordMax);
          }
        }
      }
    }
  }
}
