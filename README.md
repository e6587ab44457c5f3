# Geodict place-name recogniser, modelled in Dafny

This project models `GeodictParser`, the place-name recogniser of Paper Machines' geodict library. Given a text, it walks from the end towards the start and returns the fragments it recognises as locations. Each location is a list of tokens such as "city, then country". The parser has three layers, and the model keeps them:

- **Backward word tokenizer.** `pull_word_from_end` reads one word leftward from an index. It first skips the boundary characters that trail the word. Results are memoised by index in the instance dictionary `tokenized_words`.
  - Specification: `Tokenizer.PullWord`.
  - Characterisation: `Tokenizer.IsPullOf`.
  - Implementation: `Parser.GeodictParser.PullWordFromEnd`.
- **Four matchers**, selected through `token_definitions`:
  - `is_country` and `is_region` look the last word up in a suffix index.
  - `is_city` asks the city query.
  - `is_location_word` checks a cue-word vocabulary and adds no token.

  The first three grow a candidate name leftward one word at a time, for at most `word_max` words.
  - Specifications: `Growth.GrowFrom` and `Matchers.MatchToken`.
  - Implementations: `IsCountry`, `IsRegion`, `IsCity` and `IsLocationWord` of the class, built on `GrowName`.
- **Sequence driver.** `find_locations_in_text` tries the patterns of `token_sequences` in order at each word that could end a country or a region name. It matches each pattern back to front, caching the outcome for its trailing category. Locations are collected while walking left and reversed at the end.
  - Specification: `Sequences.Locations`, a `Walk` over the passes `PassAt`.
  - Implementation: `Parser.GeodictParser.FindLocationsInText`.

The class `Parser.GeodictParser` has these fields:
- `gazetteer`: the two suffix indices, the city query, `word_max` and the location words.
- `tokenSequences`: `token_sequences`, the constant `Sequences.TokenSequences`.
- `tokenizedWords`: the mutable word memo.

Its methods are loops proved against the specification functions. The properties of those functions are lemmas in the modules `Tokenizer`, `Gazetteer`, `Tokens`, `Growth`, `Matchers` and `Sequences`.

The memo is keyed by index alone. The methods therefore state their results for a memo whose entries all come from scans of the text at hand (`Tokenizer.CacheFor`), and they keep that invariant.

The model follows the code in three places a reader may not expect:
- **Boundary characters.** They are Python 2's `string.whitespace` (including the vertical tab and the form feed) plus `' " , . - / < >`.
- **Memo lifetime.** The memo lives as long as the parser object, not for one parse (see Findings).
- **Matched string.** It is the pulled words joined by single spaces, in general not a substring of the text; for a one-word name it is exactly the text slice from `start_index` to `end_index` (`Matchers.HitText`). Each run of boundary characters between the words becomes one space (`Matchers.HitSquashed`). A lowercase candidate at the start of the text does not stop the search. One more pull there adds a single leading space, and the capitalised candidate that results is the last one tried.

## Model

| member | source | states |
|---|---|---|
| Tokenizer.PullWord | chrome/content/papermachines/processors/lib/geodict/geodict_lib.py:385-408 | one scan: a negative index gives `next == index`; otherwise `-1 <= next < index` and `next + |word| + skipped == index`; a non-empty word needs `index >= 0` |
| Tokenizer.PullWordIsPull | chrome/content/papermachines/processors/lib/geodict/geodict_lib.py:385-405 | the scan meets `IsPullOf`: the word has no boundary character and equals `text[next+1 .. index-skipped]` character by character; exactly the `skipped` characters above it are boundaries and the one below them is not; the scan stopped at a boundary or at the text start; a negative index gives `('', index, 0)` |
| Tokenizer.PullWordUnique | chrome/content/papermachines/processors/lib/geodict/geodict_lib.py:385-408 | anything meeting that characterisation is the scan's result, so the characterisation is complete |
| Tokenizer.SkipRunIsMaximal | chrome/content/papermachines/processors/lib/geodict/geodict_lib.py:392-395 | the skipped run is all boundary characters and stops at a word character or the text start |
| Tokenizer.WordStartIsMaximal | chrome/content/papermachines/processors/lib/geodict/geodict_lib.py:396-398 | the collected word has no boundary character and ends at a boundary or the text start |
| Tokenizer.Memo | chrome/content/papermachines/processors/lib/geodict/geodict_lib.py:382-383 | the lookup before a scan: with a memo filled from the same text it answers what a fresh scan does |
| Tokenizer.SquashRangeIsSquash | chrome/content/papermachines/processors/lib/geodict/geodict_lib.py:143 | the index-based squash of a stretch of text equals `Squash` of the slice: each maximal run of boundary characters becomes one space, every other character is kept |
| Tokenizer.StaleMemoAnswersAnotherText | chrome/content/papermachines/processors/lib/geodict/geodict_lib.py:382-383 | an entry left by scanning "Paris" answers index 4 of "Rome." with "Paris", where a fresh scan reads "Rome" |
| Parser.GeodictParser.PullWordFromEnd | chrome/content/papermachines/processors/lib/geodict/geodict_lib.py:380-408 | returns the memo entry when the index is in the memo, a fresh scan otherwise; the memo gains exactly that entry at that index and keeps every earlier one; with a memo filled from this text the answer is the scan and the memo stays so |
| Parser.GeodictParser.ScanWordFromEnd | chrome/content/papermachines/processors/lib/geodict/geodict_lib.py:385-405 | the scanning loop returns exactly `PullWord(text, index)` |
| Parser.GeodictParser.ReadWordFromEnd | chrome/content/papermachines/processors/lib/geodict/geodict_lib.py:380-408 | on a memo filled from this text the answer is the fresh scan; the memo gains exactly the entry at `index`, keeps every earlier entry, and stays consistent with the text |
| Chars.BoundaryNotLetter | chrome/content/papermachines/processors/lib/geodict/geodict_lib.py:29 | none of the 14 separator characters `IsBoundary` accepts, those of `self.whitespace` (space, tab, newline, carriage return, vertical tab, form feed and ' " , . - / < >), is a letter, so lowering leaves each unchanged |
| Chars.LowerChar | chrome/content/papermachines/processors/lib/geodict/geodict_lib.py:132 | lowercasing maps each upper-case ASCII letter to the lower-case letter at the same alphabet position and leaves every other character alone |
| Chars.LowerCharSame | chrome/content/papermachines/processors/lib/geodict/geodict_lib.py:132 | two characters lowercase to the same character iff they are equal or the same ASCII letter in the two cases |
| Chars.LowerSame | chrome/content/papermachines/processors/lib/geodict/geodict_lib.py:132 | two strings lowercase to the same string iff they have the same length and agree position by position ignoring ASCII case |
| Gazetteer.NameMapLastWins | chrome/content/papermachines/processors/lib/geodict/geodict_lib.py:137-140 | a key is in `name_map` iff some row has that lowercased name, and its entry is the last such row |
| Gazetteer.NameMapEntries | chrome/content/papermachines/processors/lib/geodict/geodict_lib.py:310-313 | every entry of `name_map` is one of the rows, filed under its own lowercased name |
| Gazetteer.NameMap | chrome/content/papermachines/processors/lib/geodict/geodict_lib.py:137-140 | every entry of `name_map` is filed under its own lowercased name |
| Gazetteer.BuildNameMap | chrome/content/papermachines/processors/lib/geodict/geodict_lib.py:137-140 | the filling loop builds exactly `NameMap(rows)` |
| Gazetteer.InCountryMembers | chrome/content/papermachines/processors/lib/geodict/geodict_lib.py:301-306 | a row survives the country filter iff it is a candidate row whose country code equals the known code, ignoring case |
| Gazetteer.InCountry | chrome/content/papermachines/processors/lib/geodict/geodict_lib.py:301-306 | the filtered list is no longer than the candidates, and every row in it has the known country code, ignoring case |
| Gazetteer.InCountryInOrder | chrome/content/papermachines/processors/lib/geodict/geodict_lib.py:301-306 | the filtered list is the subsequence of the candidates, in their order, at exactly the indices whose country code equals the known code ignoring case |
| Gazetteer.FilterByCountry | chrome/content/papermachines/processors/lib/geodict/geodict_lib.py:301-306 | the filtering loop keeps exactly `InCountry(rows, code)`, in the rows' order |
| Tokens.CountryCodeInIsLast | chrome/content/papermachines/processors/lib/geodict/geodict_lib.py:204-213 | the country code read from the previous result is absent iff there is no COUNTRY token, and is `code` iff the last COUNTRY token has that code |
| Tokens.RegionCodeInIsLast | chrome/content/papermachines/processors/lib/geodict/geodict_lib.py:204-213 | the same for the region code and the last REGION token |
| Tokens.SequenceCodes | chrome/content/papermachines/processors/lib/geodict/geodict_lib.py:204-213 | the loop over `found_tokens` yields the last country code and the last region code, or none when there is no previous result |
| Growth.CandAt | chrome/content/papermachines/processors/lib/geodict/geodict_lib.py:121-143 | the candidate after `k` pulls starts no later than the first pull's stop and not before -1; after one pull it is the first word |
| Growth.CandAtSpaced | chrome/content/papermachines/processors/lib/geodict/geodict_lib.py:143 | a candidate of two words or more contains a space |
| Growth.GrowFrom | chrome/content/papermachines/processors/lib/geodict/geodict_lib.py:121-164 | an accepted name has between the current count and `word_max` words |
| Growth.GrowFromHit | chrome/content/papermachines/processors/lib/geodict/geodict_lib.py:152-161 | an accepted name is the candidate of its length, non-empty, not starting lowercase, filed in `name_map` under its lowercased form with that row |
| Growth.GrowFromEmptyFirst | chrome/content/papermachines/processors/lib/geodict/geodict_lib.py:146-147 | a search whose first pulled word is empty finds nothing |
| Growth.GrowFromStep | chrome/content/papermachines/processors/lib/geodict/geodict_lib.py:152-164 | at one length: accepting and halting exclude each other; accepting returns that length; halting returns nothing; otherwise the search moves to the next length, or ends at `word_max` |
| Growth.GrowFromFirstHit | chrome/content/papermachines/processors/lib/geodict/geodict_lib.py:152-164 | from any count, the search accepts `k` words iff that candidate accepts and no length in between accepts or halts |
| Growth.GrowAcceptsFirstHit | chrome/content/papermachines/processors/lib/geodict/geodict_lib.py:152-164 | acceptance rule: the name of `k` words is accepted iff it is capitalised and known and every shorter candidate was lowercase (skipped, growth goes on) or capitalised, unknown and not at the text start |
| Parser.GeodictParser.TestCandidate | chrome/content/papermachines/processors/lib/geodict/geodict_lib.py:146-164 | one test of the loop either ends the search with the search's answer, or defers to the next length below `word_max` with the same answer |
| Parser.GeodictParser.ExtendCandidate | chrome/content/papermachines/processors/lib/geodict/geodict_lib.py:121-143 | one more pull joined in front with a space turns the candidate of `count` words into the candidate of `count + 1` words; the memo keeps its entries and stays consistent |
| Parser.GeodictParser.GrowName | chrome/content/papermachines/processors/lib/geodict/geodict_lib.py:121-164 | the growth loop returns `GrowFrom` from one word; it counts the words it pulls, between 1 and `word_max`, and a hit has as many words as that count; the memo keeps its entries and stays consistent |
| Matchers.CountryHit | chrome/content/papermachines/processors/lib/geodict/geodict_lib.py:121-135 | a country name found has between 1 and `word_max` words |
| Matchers.RegionRows | chrome/content/papermachines/processors/lib/geodict/geodict_lib.py:299-307 | the candidate rows are those filed under the last word: all of them without a country code, and with one exactly those whose code equals it ignoring case |
| Matchers.RegionHit | chrome/content/papermachines/processors/lib/geodict/geodict_lib.py:290-313 | a region name found has between 1 and `word_max` words |
| Matchers.CityHit | chrome/content/papermachines/processors/lib/geodict/geodict_lib.py:219-229 | a city name found has between 1 and `word_max` words |
| Matchers.EndOf | chrome/content/papermachines/processors/lib/geodict/geodict_lib.py:128 | `end_index`: at or below the starting index and no lower than -1; a word character when non-negative, with only boundary characters above it up to the starting index |
| Matchers.CountryMatch | chrome/content/papermachines/processors/lib/geodict/geodict_lib.py:166-195 | there is a COUNTRY token iff the country search found a name; the token ends at `end_index` |
| Matchers.RegionMatch | chrome/content/papermachines/processors/lib/geodict/geodict_lib.py:332-358 | there is a REGION token iff the region search found a name; the token ends at `end_index` |
| Matchers.CityMatch | chrome/content/papermachines/processors/lib/geodict/geodict_lib.py:248-272 | there is a CITY token iff the city search found a name; the token ends at `end_index` |
| Matchers.MatchToken | chrome/content/papermachines/processors/lib/geodict/geodict_lib.py:410-423 | a LOCATION_WORD match hands back the previous result; any other match is one token in front of the previous tokens, kept unchanged |
| Matchers.Prepend | chrome/content/papermachines/processors/lib/geodict/geodict_lib.py:172-195 | on a match the result has one more token, the new token at position 0 and the previous tokens unchanged after it; no match gives no result |
| Matchers.LocationWord | chrome/content/papermachines/processors/lib/geodict/geodict_lib.py:363-376 | the result exists iff there is a previous result and the pulled word is non-empty and a location word once lowercased; it is then the previous result unchanged |
| Matchers.CandAtStartsAfterBoundary | chrome/content/papermachines/processors/lib/geodict/geodict_lib.py:122-143 | every candidate starts just after a boundary character or at the text start |
| Matchers.HitSpan | chrome/content/papermachines/processors/lib/geodict/geodict_lib.py:186-195 | a found name spans `[start, end]` with `0 <= start <= end <= text_starting_index`, `end = text_starting_index - end_skipped` inclusive, on a word character with only boundaries above it, `start` at a word start, matched text capitalised |
| Matchers.HitText | chrome/content/papermachines/processors/lib/geodict/geodict_lib.py:143 | a one-word name is the text from `start` to `end` character by character; the matched text contains a space iff it has two words or more |
| Matchers.HitSquashed | chrome/content/papermachines/processors/lib/geodict/geodict_lib.py:121-164 | the matched string is the text from `start_index` to `end_index` with each run of boundary characters squashed to one space, after `j` leading spaces; `j` is at most 1, and 1 only when the name starts at index 0 |
| Matchers.CountryHitRow | chrome/content/papermachines/processors/lib/geodict/geodict_lib.py:130-157 | the row of a country hit is one filed under the lowercased last word, and its lowercased name is the lowercased matched text |
| Matchers.RegionHitRow | chrome/content/papermachines/processors/lib/geodict/geodict_lib.py:297-325 | the row of a region hit is filed under the last word, its name matches, and when a country is known its country code equals it ignoring case |
| Matchers.CityHitRow | chrome/content/papermachines/processors/lib/geodict/geodict_lib.py:227-241 | the row of a city hit is the query's entry for the lowercased matched text, the query asked with the first pulled word and the codes of the previous result |
| Matchers.CountryMatchPlaced | chrome/content/papermachines/processors/lib/geodict/geodict_lib.py:186-195 | a COUNTRY token is well placed: within `[0, idx]`, start at a word start, end on the last character of the first pulled word, capitalised |
| Matchers.RegionMatchPlaced | chrome/content/papermachines/processors/lib/geodict/geodict_lib.py:347-356 | a REGION token is well placed |
| Matchers.CityMatchPlaced | chrome/content/papermachines/processors/lib/geodict/geodict_lib.py:262-270 | a CITY token is well placed |
| Matchers.MatchTokenAdds | chrome/content/papermachines/processors/lib/geodict/geodict_lib.py:186-195 | the country, region and city matchers put exactly one well-placed token in front of the previous tokens |
| Matchers.NoWordsNoMatch | chrome/content/papermachines/processors/lib/geodict/geodict_lib.py:121 | with `word_max` zero the country, region and city matchers find nothing |
| Matchers.UnknownLastWordNoMatch | chrome/content/papermachines/processors/lib/geodict/geodict_lib.py:133-134 | early exit: no country or region match when the lowercased last word is not an index key, no city match when the query is empty, and no match at all from a negative index |
| Parser.GeodictParser.IsCountry | chrome/content/papermachines/processors/lib/geodict/geodict_lib.py:112-197 | `is_country` returns `MatchToken(COUNTRY)`; the memo keeps its entries and stays consistent with the text |
| Parser.GeodictParser.IsRegion | chrome/content/papermachines/processors/lib/geodict/geodict_lib.py:275-358 | `is_region` returns `MatchToken(REGION)`, rows narrowed by the last country code; the memo keeps its entries and stays consistent |
| Parser.GeodictParser.RegionNames | chrome/content/papermachines/processors/lib/geodict/geodict_lib.py:300-313 | the `name_map` of `is_region` is `NameMap` of the rows filed under the last word, narrowed to the known country when there is one |
| Parser.GeodictParser.IsCity | chrome/content/papermachines/processors/lib/geodict/geodict_lib.py:201-272 | `is_city` returns `MatchToken(CITY)`, the query narrowed by the last country and region codes; the memo keeps its entries and stays consistent |
| Parser.GeodictParser.IsLocationWord | chrome/content/papermachines/processors/lib/geodict/geodict_lib.py:363-376 | `is_location_word` returns `MatchToken(LOCATION_WORD)`; the memo keeps its entries and stays consistent |
| Parser.GeodictParser.MatchTokenAt | chrome/content/papermachines/processors/lib/geodict/geodict_lib.py:410-423 | dispatching on the category calls the matcher that `token_definitions` names, answering as the match function `m` does; the memo keeps its entries |
| Sequences.Dispatch | chrome/content/papermachines/processors/lib/geodict/geodict_lib.py:410-423 | the match function `token_definitions` names for each category, at every index of the text; LOCATION_WORD hands the previous result back unchanged, and every other category adds one token of its own category within `[0, idx]` in front |
| Parser.GeodictParser.MatchCachedAt | chrome/content/papermachines/processors/lib/geodict/geodict_lib.py:73-81 | the cached answer at the first position equals a fresh call; the cache gains the answer only at the first position; every cache entry stays the fresh answer at the scan index; the memo keeps its entries |
| Sequences.MatchFrom | chrome/content/papermachines/processors/lib/geodict/geodict_lib.py:62-89 | a full match is non-empty, and either is the previous result or starts at or before the index |
| Parser.GeodictParser.MatchSequenceAt | chrome/content/papermachines/processors/lib/geodict/geodict_lib.py:62-89 | the inner loop returns `MatchFrom` of the reversed sequence, and the per-position cache stays correct; the memo keeps its entries |
| Sequences.MatchFromIsChain | chrome/content/papermachines/processors/lib/geodict/geodict_lib.py:62-89 | a matched sequence is a non-empty chain of non-overlapping tokens in text order, each within `[0, idx]` |
| Sequences.MatchFromKeeps | chrome/content/papermachines/processors/lib/geodict/geodict_lib.py:79-89 | the previous tokens stay, unchanged, at the end of a match |
| Sequences.MatchFromCategories | chrome/content/papermachines/processors/lib/geodict/geodict_lib.py:60-89 | the categories of a match are those of the pattern, LOCATION_WORD dropped, in text order, in front of the previous ones |
| Sequences.FirstMatchIsChain | chrome/content/papermachines/processors/lib/geodict/geodict_lib.py:56-93 | the first full match is a non-empty chain within `[0, idx]` whose categories are one of the patterns |
| Sequences.FirstMatchPicks | chrome/content/papermachines/processors/lib/geodict/geodict_lib.py:56-93 | pattern priority: a pattern that matches when no earlier one does gives the result |
| Sequences.FirstMatchFrom | chrome/content/papermachines/processors/lib/geodict/geodict_lib.py:56-93 | any result comes from some pattern all of whose predecessors failed |
| Sequences.FirstMatchNone | chrome/content/papermachines/processors/lib/geodict/geodict_lib.py:92-97 | no result iff every pattern fails |
| Sequences.PatternsEndOnKey | chrome/content/papermachines/processors/lib/geodict/geodict_lib.py:427-433 | the five patterns, in priority order; each ends on COUNTRY or REGION, the only last words at which the main loop tries them, and LOCATION_WORD only ever opens a pattern |
| Sequences.FirstMatch | chrome/content/papermachines/processors/lib/geodict/geodict_lib.py:56-93 | a result from the patterns is non-empty and starts at or before the scan index |
| Parser.GeodictParser.FirstMatchAt | chrome/content/papermachines/processors/lib/geodict/geodict_lib.py:53-93 | the loop over `token_sequences` with a fresh `match_cache` returns `FirstMatch`; the memo keeps its entries |
| Sequences.PassAt | chrome/content/papermachines/processors/lib/geodict/geodict_lib.py:40-102 | termination: every pass moves the scan index strictly left, to no less than -1 |
| Parser.GeodictParser.ScanStep | chrome/content/papermachines/processors/lib/geodict/geodict_lib.py:42-102 | one pass of the main loop yields exactly `PassAt`: skip, back up one word, or a location with the walk resuming before its first token; the memo keeps its entries |
| Parser.GeodictParser.ScanLocations | chrome/content/papermachines/processors/lib/geodict/geodict_lib.py:34-105 | the main loop, collecting last first and reversing at the end, returns the walk in document order; the memo keeps its entries |
| Parser.GeodictParser.FindLocationsInText | chrome/content/papermachines/processors/lib/geodict/geodict_lib.py:33-107 | `find_locations_in_text` returns `Locations(text)` on a memo consistent with the text, keeps every entry it had, and leaves it consistent |
| Sequences.PassesFind | chrome/content/papermachines/processors/lib/geodict/geodict_lib.py:92-102 | each pass that finds a location finds a chain within its index matching one of the patterns, and resumes just before it |
| Sequences.Walk | chrome/content/papermachines/processors/lib/geodict/geodict_lib.py:33-107 | the walk from `idx` collects at most `idx + 1` locations, since each pass moves left |
| Sequences.Locations | chrome/content/papermachines/processors/lib/geodict/geodict_lib.py:33-107 | `find_locations_in_text` returns no more locations than the text has characters |
| Sequences.WalkSeparated | chrome/content/papermachines/processors/lib/geodict/geodict_lib.py:40-105 | the walk's locations are chains, each ending before the next begins, all within `[0, idx]` |
| Sequences.WalkPatterns | chrome/content/papermachines/processors/lib/geodict/geodict_lib.py:40-105 | if every pass finds patterns, every location of the walk follows a pattern |
| Sequences.LocationsSeparated | chrome/content/papermachines/processors/lib/geodict/geodict_lib.py:33-107 | ordering: the result is in ascending `start_index`, with no two locations or tokens overlapping |
| Sequences.LocationsPatterns | chrome/content/papermachines/processors/lib/geodict/geodict_lib.py:33-107 | each location follows one of the token sequences, LOCATION_WORD dropped |
| Parser.GeodictParser.constructor | chrome/content/papermachines/processors/lib/geodict/geodict_lib.py:24-31 | the parser starts with the given gazetteer, the `token_sequences` table and an empty word memo |
| Parser.GeodictParser.FindLocationsFresh | chrome/content/papermachines/processors/lib/geodict/geodict_lib.py:33-107 | with the memo emptied first, the result is `Locations(text)` whatever earlier texts left in the memo |

## Left out

- The database, `setup_countries_cache`, `setup_regions_cache` and the SQL behind `get_cities` are not modelled. The suffix indices are given maps from a lowercase last word to rows, and the city query is an uninterpreted function. `geodict_config.word_max` and `geodict_config.location_words` are given values.
- Latitude, longitude and geoname id are only copied, so they are abstract types.
- `str.islower` and `str.lower` are Unicode-aware in Python. The model restricts them to ASCII letters.
- `pull_word_from_end` is modelled with `use_cache` true, the only way the parser calls it.
- Results are values (`Option<seq<Token>>`), not shared mutable dictionaries.
  - In the source, a matcher may insert into the `previous_result` object also held in `match_cache`.
  - Insertion happens only on a success at a position past the first, and no pattern has more than two categories. So that success completes the pattern, and the mutated entry is never read again.
  - The model copies instead, and does not capture the aliasing itself.
- The word is built by prepending each character rather than by appending and reversing. The result is the same.
- Parser.GeodictParser.FindLocationsInText: stated only for a memo whose entries come from scans of the same text. On a memo left by another text the source can return other words (see Findings).
- Parser.GeodictParser.IsCountry: like the other matchers and the driver's helpers, stated only for a memo filled from the same text, for the same reason.
- Token `type` and `code` entries are the datatype `TokenKind`, and `found_tokens` is the sequence of tokens. The dictionary layout of the result is not modelled.

## Findings

| source | as written | input that shows it | evidently intended | confidence | as-written member | corrected member |
|---|---|---|---|---|---|---|
| chrome/content/papermachines/processors/lib/geodict/geodict_lib.py:382-383 | `tokenized_words` is created once per parser (line 31), keyed by index alone and never cleared, so a lookup answers from entries left by an earlier text | scan "Paris" at index 4, then call `find_locations_in_text("Rome.")`: index 4 answers ("Paris", -1, 0) where a fresh scan gives ("Rome", -1, 1) | the memo holds scans of the current text only, one parse at a time | not executed | Tokenizer.StaleMemoAnswersAnotherText | Parser.GeodictParser.FindLocationsFresh |
