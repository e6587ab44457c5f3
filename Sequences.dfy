/**
 * The token sequences and the backward scan of `find_locations_in_text`.
 *
 * A sequence is a pattern of categories in text order ("a city, then a
 * country"). Walking the text from the end, the parser tries the sequences
 * in table order at each word that could end a country or a region name,
 * matching each pattern back to front. The first sequence that matches in
 * full is a location; the scan then continues before its first token.
 * Otherwise the scan moves one word to the left.
 *
 * `Walk` over the passes `Passes` is the specification of the scan, in
 * document order, and `Locations` names it for a text. The looping
 * implementation is `Parser.GeodictParser.FindLocationsInText`.
 */
module Sequences {
  import opened Chars
  import opened Optional
  import opened Tokenizer
  import opened Gazetteer
  import opened Tokens
  import opened Matchers

  /** `token_sequences`, in the order they are tried. */
  const TokenSequences: seq<seq<Category>> := [
    [CITY, COUNTRY],
    [CITY, REGION],
    [REGION, COUNTRY],
    [COUNTRY],
    [LOCATION_WORD, REGION]
  ]

  /** The five patterns, tried in this order: each ends on a country or a
      region, the only last words the parser stops at, and LOCATION_WORD
      only ever opens a pattern. */
  lemma PatternsEndOnKey()
    ensures |TokenSequences| == 5
    ensures forall i :: 0 <= i < |TokenSequences| ==>
      TokenSequences[i] != [] && TokenSequences[i][|TokenSequences[i]| - 1] in {COUNTRY, REGION}
    ensures forall i, j :: 0 <= i < |TokenSequences| && 0 < j < |TokenSequences[i]| ==>
      TokenSequences[i][j] != LOCATION_WORD
  {
  }

  /** `s[::-1]`. */
  function Reverse<T>(s: seq<T>): (r: seq<T>)
    ensures |r| == |s|
  {
    if s == [] then [] else Reverse(s[1..]) + [s[0]]
  }

  /** The category of a found token. */
  function CategoryOf(t: Token): Category
  {
    match t.kind
    case CountryToken(_) => COUNTRY
    case RegionToken(_) => REGION
    case CityToken => CITY
  }

  function Categories(tokens: seq<Token>): (cs: seq<Category>)
    ensures |cs| == |tokens|
  {
    if tokens == [] then [] else [CategoryOf(tokens[0])] + Categories(tokens[1..])
  }

  /** A pattern with its LOCATION_WORD entries dropped: the categories of
      the tokens a match of it leaves. */
  function Located(cats: seq<Category>): seq<Category>
  {
    if cats == [] then []
    else (if cats[0] == LOCATION_WORD then [] else [cats[0]]) + Located(cats[1..])
  }

  /** Tokens in text order, each a non-empty span of the text up to `idx`,
      with no two overlapping. */
  ghost predicate Chain(tokens: seq<Token>, idx: int)
  {
    && (forall i :: 0 <= i < |tokens| ==> 0 <= tokens[i].start <= tokens[i].end <= idx)
    && (forall i :: 0 <= i < |tokens| - 1 ==> tokens[i].end < tokens[i + 1].start)
  }

  /** `match_function(self, text, token_index, token_result)` with the text
      fixed: the entry of `token_definitions` for a category, applied. */
  type MatchFunction = (Category, int, Option<seq<Token>>) -> Option<seq<Token>>

  /** The match functions of `token_definitions` on `text`; they extend
      the previous result as the sequence matching relies on. */
  function Dispatch(g: Gazetteer, text: string): (m: MatchFunction)
    ensures Implements(m, g, text)
    ensures Extends(m)
  {
    var m := (cat: Category, idx: int, previous: Option<seq<Token>>) =>
      if idx < |text| then MatchToken(g, cat, text, idx, previous) else None;
    MatchTokenExtends(g, text, m);
    m
  }

  /** `m` answers as the match functions of `token_definitions` on `text`
      do, at every index of the text. */
  ghost predicate Implements(m: MatchFunction, g: Gazetteer, text: string)
  {
    forall cat, idx, previous {:trigger MatchToken(g, cat, text, idx, previous)} ::
      idx < |text| ==> m(cat, idx, previous) == MatchToken(g, cat, text, idx, previous)
  }

  /** What the sequence matching relies on from a match function: after a
      match, LOCATION_WORD hands back the previous result, and every other
      category puts one token of its own category, within `[0, idx]`, in
      front of the previous tokens. */
  ghost predicate Extends(m: MatchFunction)
  {
    forall cat, idx, previous | m(cat, idx, previous).Some? ::
      if cat == LOCATION_WORD then m(cat, idx, previous) == previous
      else
        && |m(cat, idx, previous).value| == 1 + |TokensOf(previous)|
        && m(cat, idx, previous).value == [m(cat, idx, previous).value[0]] + TokensOf(previous)
        && 0 <= m(cat, idx, previous).value[0].start <= m(cat, idx, previous).value[0].end <= idx
        && CategoryOf(m(cat, idx, previous).value[0]) == cat
  }

  /** The matchers of the parser behave so. */
  lemma MatchTokenExtends(g: Gazetteer, text: string, m: MatchFunction)
    requires forall cat, idx, previous ::
      m(cat, idx, previous) == if idx < |text| then MatchToken(g, cat, text, idx, previous) else None
    ensures Extends(m)
  {
    forall cat, idx, previous | m(cat, idx, previous).Some?
      ensures if cat == LOCATION_WORD then m(cat, idx, previous) == previous
        else
          && |m(cat, idx, previous).value| == 1 + |TokensOf(previous)|
          && m(cat, idx, previous).value[1..] == TokensOf(previous)
          && 0 <= m(cat, idx, previous).value[0].start <= m(cat, idx, previous).value[0].end <= idx
          && CategoryOf(m(cat, idx, previous).value[0]) == cat
    {
      assert idx < |text|;
      if cat != LOCATION_WORD {
        MatchTokenAdds(g, cat, text, idx, previous);
        CategoryOfMatch(g, cat, text, idx, previous);
      }
    }
  }

  /** The inner loop of `find_locations_in_text`: match the categories
      `cats` (already reversed) one by one, each ending just before the
      first token found so far. */
  function MatchFrom(m: MatchFunction, cats: seq<Category>, idx: int,
                     previous: Option<seq<Token>>): (r: Option<seq<Token>>)
    requires Extends(m)
    requires previous.Some? ==> previous.value != [] && previous.value[0].start == idx + 1
    ensures r.Some? ==> r.value != [] && (r == previous || r.value[0].start <= idx)
    decreases |cats|
  {
    if cats == [] then previous
    else
      var r := m(cats[0], idx, previous);
      if r.None? then None
      else MatchFrom(m, cats[1..], r.value[0].start - 1, r)
  }

  /** One step of `MatchFrom`: the first category, then the rest before
      the token it found. */
  lemma MatchFromCons(m: MatchFunction, cats: seq<Category>, idx: int, previous: Option<seq<Token>>)
    requires Extends(m) && cats != []
    requires previous.Some? ==> previous.value != [] && previous.value[0].start == idx + 1
    ensures m(cats[0], idx, previous).Some? ==> m(cats[0], idx, previous).value != []
    ensures MatchFrom(m, cats, idx, previous)
         == if m(cats[0], idx, previous).None? then None
            else MatchFrom(m, cats[1..], m(cats[0], idx, previous).value[0].start - 1, m(cats[0], idx, previous))
  {
  }

  /** The first sequence of `seqs` that matches in full, reversed and
      matched back to front from `idx`. */
  function FirstMatch(m: MatchFunction, seqs: seq<seq<Category>>, idx: int): (r: Option<seq<Token>>)
    requires Extends(m)
    ensures r.Some? ==> r.value != [] && r.value[0].start <= idx
  {
    if seqs == [] then None
    else
      var r := MatchFrom(m, Reverse(seqs[0]), idx, None);
      if r.Some? then r else FirstMatch(m, seqs[1..], idx)
  }

  /** What one pass of the loop of `find_locations_in_text` yields: the
      location found, if any, and the index the walk goes on from. */
  datatype Pass = Pass(location: Option<seq<Token>>, next: int)

  /** One pass of the loop at `idx`: where the word there could end a
      country or a region name, the first of `seqs` that matches, with the
      walk going on before its first token; otherwise nothing, with the
      walk going on one word to the left. */
  function PassAt(g: Gazetteer, m: MatchFunction, seqs: seq<seq<Category>>, text: string, idx: int): (s: Pass)
    requires 0 <= idx < |text| && Extends(m)
    ensures -1 <= s.next < idx
  {
    var p := PullWord(text, idx);
    var last := Lower(p.word);
    if last !in g.countries && last !in g.regions then Pass(None, p.next)
    else
      var r := FirstMatch(m, seqs, idx);
      if r.None? then Pass(None, p.next)
      else
        FirstMatchIsChain(m, seqs, idx);
        Pass(r, r.value[0].start - 1)
  }

  /** The passes of a walk, by index. */
  type Walker = int -> Pass

  ghost predicate MovesLeft(step: Walker)
  {
    forall i :: 0 <= i ==> -1 <= step(i).next < i
  }

  /** The locations the loop collects from `idx` leftward, in document
      order. */
  function Walk(step: Walker, idx: int): (found: seq<seq<Token>>)
    requires MovesLeft(step)
    ensures |found| <= if idx < 0 then 0 else idx + 1
    decreases idx + 1
  {
    if idx < 0 then []
    else
      var s := step(idx);
      Walk(step, s.next) + (if s.location.Some? then [s.location.value] else [])
  }

  /** The passes of the parser on `text`. */
  function Passes(g: Gazetteer, m: MatchFunction, seqs: seq<seq<Category>>, text: string): Walker
    requires Extends(m)
  {
    (idx: int) => if 0 <= idx < |text| then PassAt(g, m, seqs, text, idx) else Pass(None, -1)
  }

  /** `step` makes the passes of the parser on `text`, as far as it goes. */
  ghost predicate Follows(step: Walker, g: Gazetteer, m: MatchFunction, seqs: seq<seq<Category>>, text: string)
  {
    && Extends(m)
    && MovesLeft(step)
    && forall i {:trigger PassAt(g, m, seqs, text, i)} :: 0 <= i < |text| ==> step(i) == PassAt(g, m, seqs, text, i)
  }

  lemma PassesFollow(g: Gazetteer, m: MatchFunction, seqs: seq<seq<Category>>, text: string)
    requires Extends(m)
    ensures Follows(Passes(g, m, seqs, text), g, m, seqs, text)
  {
  }

  /** `find_locations_in_text(text)` with the patterns `seqs`. */
  function Locations(g: Gazetteer, seqs: seq<seq<Category>>, text: string): (found: seq<seq<Token>>)
    ensures |found| <= |text|
  {
    PassesFollow(g, Dispatch(g, text), seqs, text);
    Walk(Passes(g, Dispatch(g, text), seqs, text), |text| - 1)
  }

  /** A token ending before the first token of a chain extends it. */
  lemma PrependChain(t: Token, tokens: seq<Token>, top: int)
    requires Chain(tokens, top)
    requires 0 <= t.start <= t.end <= top
    requires tokens != [] ==> t.end < tokens[0].start
    ensures Chain([t] + tokens, top)
  {
    var r := [t] + tokens;
    forall i | 0 <= i < |r| - 1 ensures r[i].end < r[i + 1].start {
      if i > 0 {
        assert r[i] == tokens[i - 1] && r[i + 1] == tokens[i];
      }
    }
  }

  /** Matching a sequence keeps a chain of tokens: each new token ends
      before the previous first token, within `[0, idx]`. */
  lemma {:induction false} MatchFromIsChain(m: MatchFunction, cats: seq<Category>, idx: int,
                                            previous: Option<seq<Token>>, top: int)
    requires Extends(m) && idx <= top
    requires previous.Some? ==> previous.value != [] && previous.value[0].start == idx + 1
    requires Chain(TokensOf(previous), top)
    ensures var r := MatchFrom(m, cats, idx, previous);
      r.Some? ==> r.value != [] && Chain(r.value, top) && r.value[0].start <= idx + 1
    decreases |cats|
  {
    if cats != [] {
      var r := m(cats[0], idx, previous);
      if r.Some? {
        if cats[0] != LOCATION_WORD {
          var tokens := TokensOf(previous);
          PrependChain(r.value[0], tokens, top);
          assert r.value == [r.value[0]] + tokens;
        }
        MatchFromIsChain(m, cats[1..], r.value[0].start - 1, r, top);
      }
    }
  }

  /** `t` is the tail of `s`. */
  ghost predicate EndsWith<T>(s: seq<T>, t: seq<T>)
  {
    |s| >= |t| && s[|s| - |t|..] == t
  }

  /** The previous tokens stay, unchanged, at the end of a match. */
  lemma {:induction false} MatchFromKeeps(m: MatchFunction, cats: seq<Category>, idx: int,
                                          previous: Option<seq<Token>>)
    requires Extends(m)
    requires previous.Some? ==> previous.value != [] && previous.value[0].start == idx + 1
    ensures var r := MatchFrom(m, cats, idx, previous);
      r.Some? ==> EndsWith(r.value, TokensOf(previous))
    decreases |cats|
  {
    var result := MatchFrom(m, cats, idx, previous);
    if result.Some? {
      if cats == [] {
        assert result.value[0..] == result.value;
      } else {
        MatchFromCons(m, cats, idx, previous);
        var r := m(cats[0], idx, previous);
        MatchKeeps(m, cats[0], idx, previous);
        MatchFromKeeps(m, cats[1..], r.value[0].start - 1, r);
        EndsWithTrans(result.value, r.value, TokensOf(previous));
      }
    }
  }

  /** One match keeps the previous tokens at its end. */
  lemma MatchKeeps(m: MatchFunction, cat: Category, idx: int, previous: Option<seq<Token>>)
    requires Extends(m) && m(cat, idx, previous).Some?
    ensures EndsWith(m(cat, idx, previous).value, TokensOf(previous))
  {
    var r := m(cat, idx, previous).value;
    if cat == LOCATION_WORD {
      assert r[0..] == r;
    } else {
      assert r == [r[0]] + TokensOf(previous);
    }
  }

  lemma EndsWithTrans<T>(a: seq<T>, b: seq<T>, c: seq<T>)
    requires EndsWith(a, b) && EndsWith(b, c)
    ensures EndsWith(a, c)
  {
    assert a[|a| - |b|..][|b| - |c|..] == a[|a| - |c|..];
  }

  /** A match of a sequence has one token per category of `cats` that is
      not LOCATION_WORD, in text order, in front of the previous tokens. */
  lemma {:induction false} MatchFromCategories(m: MatchFunction, cats: seq<Category>, idx: int,
                                               previous: Option<seq<Token>>)
    requires Extends(m)
    requires previous.Some? ==> previous.value != [] && previous.value[0].start == idx + 1
    ensures var r := MatchFrom(m, cats, idx, previous);
      r.Some? ==> Categories(r.value) == Reverse(Located(cats)) + Categories(TokensOf(previous))
    decreases |cats|
  {
    var result := MatchFrom(m, cats, idx, previous);
    if result.Some? {
      if cats == [] {
        assert Reverse(Located(cats)) == [];
      } else {
        var r := m(cats[0], idx, previous);
        assert r.Some? && r.value != [] && result == MatchFrom(m, cats[1..], r.value[0].start - 1, r) by {
          MatchFromCons(m, cats, idx, previous);
        }
        MatchCategories(m, cats[0], idx, previous);
        MatchFromCategories(m, cats[1..], r.value[0].start - 1, r);
        ReverseLocatedCons(cats, Categories(TokensOf(previous)));
      }
    }
  }

  /** One match adds the category it matched, unless it is LOCATION_WORD. */
  lemma MatchCategories(m: MatchFunction, cat: Category, idx: int, previous: Option<seq<Token>>)
    requires Extends(m) && m(cat, idx, previous).Some?
    ensures Categories(m(cat, idx, previous).value)
         == (if cat == LOCATION_WORD then [] else [cat]) + Categories(TokensOf(previous))
  {
    if cat != LOCATION_WORD {
      var r := m(cat, idx, previous);
      CategoriesCons(r.value[0], TokensOf(previous));
    }
  }

  lemma ReverseLocatedCons(cats: seq<Category>, rest: seq<Category>)
    requires cats != []
    ensures Reverse(Located(cats)) + rest
         == Reverse(Located(cats[1..])) + ((if cats[0] == LOCATION_WORD then [] else [cats[0]]) + rest)
  {
    var head := if cats[0] == LOCATION_WORD then [] else [cats[0]];
    assert Located(cats) == head + Located(cats[1..]);
    ReverseAppend(head, Located(cats[1..]));
    assert Reverse(head) == head;
    AppendAssoc(Reverse(Located(cats[1..])), head, rest);
  }

  lemma AppendAssoc<T>(a: seq<T>, b: seq<T>, c: seq<T>)
    ensures (a + b) + c == a + (b + c)
  {
  }

  lemma CategoriesCons(t: Token, tokens: seq<Token>)
    ensures Categories([t] + tokens) == [CategoryOf(t)] + Categories(tokens)
  {
    assert ([t] + tokens)[1..] == tokens;
  }

  /** A new token has the category of its matcher. */
  lemma CategoryOfMatch(g: Gazetteer, cat: Category, text: string, idx: int, previous: Option<seq<Token>>)
    requires idx < |text| && cat != LOCATION_WORD
    requires MatchToken(g, cat, text, idx, previous).Some?
    ensures CategoryOf(MatchToken(g, cat, text, idx, previous).value[0]) == cat
  {
  }

  lemma {:induction false} ReverseAppend<T>(a: seq<T>, b: seq<T>)
    ensures Reverse(a + b) == Reverse(b) + Reverse(a)
    decreases |a|
  {
    if a == [] {
      assert a + b == b;
    } else {
      assert (a + b)[1..] == a[1..] + b;
      ReverseAppend(a[1..], b);
    }
  }

  lemma {:induction false} ReverseReverse<T>(s: seq<T>)
    ensures Reverse(Reverse(s)) == s
    decreases |s|
  {
    if s != [] {
      ReverseAppend(Reverse(s[1..]), [s[0]]);
      ReverseReverse(s[1..]);
      assert Reverse([s[0]]) == [s[0]];
    }
  }

  lemma {:induction false} LocatedReverse(s: seq<Category>)
    ensures Located(Reverse(s)) == Reverse(Located(s))
    decreases |s|
  {
    if s != [] {
      var head := if s[0] == LOCATION_WORD then [] else [s[0]];
      LocatedAppend(Reverse(s[1..]), [s[0]]);
      LocatedReverse(s[1..]);
      assert Located([s[0]]) == head;
      ReverseAppend(head, Located(s[1..]));
      assert Reverse(head) == head;
    }
  }

  lemma {:induction false} LocatedAppend(a: seq<Category>, b: seq<Category>)
    ensures Located(a + b) == Located(a) + Located(b)
    decreases |a|
  {
    if a == [] {
      assert a + b == b;
    } else {
      assert (a + b)[1..] == a[1..] + b;
      LocatedAppend(a[1..], b);
    }
  }

  /** The first full match is a chain of tokens ending no later than
      `idx`, and its categories are one of the sequences of `seqs` with
      LOCATION_WORD dropped. */
  lemma {:induction false} FirstMatchIsChain(m: MatchFunction, seqs: seq<seq<Category>>, idx: int)
    requires Extends(m)
    ensures var r := FirstMatch(m, seqs, idx);
      r.Some? ==>
        && r.value != []
        && Chain(r.value, idx)
        && OneOf(r.value, seqs)
    decreases |seqs|
  {
    if seqs != [] {
      var r := MatchFrom(m, Reverse(seqs[0]), idx, None);
      if r.Some? {
        MatchFromIsChain(m, Reverse(seqs[0]), idx, None, idx);
        MatchFromCategories(m, Reverse(seqs[0]), idx, None);
        LocatedReverse(seqs[0]);
        ReverseReverse(Located(seqs[0]));
        assert Categories(r.value) == Located(seqs[0]);
      } else {
        FirstMatchIsChain(m, seqs[1..], idx);
        var r' := FirstMatch(m, seqs[1..], idx);
        if r'.Some? {
          var k :| 0 <= k < |seqs[1..]| && Categories(r'.value) == Located(seqs[1..][k]);
          assert seqs[1..][k] == seqs[k + 1];
          assert OneOf(r'.value, seqs);
        }
      }
    }
  }

  /** Sequences are tried in table order: a sequence that matches when
      no earlier one does gives the result. */
  lemma {:induction false} FirstMatchPicks(m: MatchFunction, seqs: seq<seq<Category>>, idx: int, k: nat)
    requires Extends(m) && k < |seqs|
    requires MatchFrom(m, Reverse(seqs[k]), idx, None).Some?
    requires forall j :: 0 <= j < k ==> MatchFrom(m, Reverse(seqs[j]), idx, None).None?
    ensures FirstMatch(m, seqs, idx) == MatchFrom(m, Reverse(seqs[k]), idx, None)
    decreases k
  {
    if k > 0 {
      assert seqs[1..][k - 1] == seqs[k];
      forall j | 0 <= j < k - 1 ensures MatchFrom(m, Reverse(seqs[1..][j]), idx, None).None? {
        assert seqs[1..][j] == seqs[j + 1];
      }
      FirstMatchPicks(m, seqs[1..], idx, k - 1);
    }
  }

  /** A result always comes from the first sequence that matches. */
  lemma {:induction false} FirstMatchFrom(m: MatchFunction, seqs: seq<seq<Category>>, idx: int)
    requires Extends(m)
    ensures FirstMatch(m, seqs, idx).Some? ==>
      exists k :: 0 <= k < |seqs| && FirstMatch(m, seqs, idx) == MatchFrom(m, Reverse(seqs[k]), idx, None)
        && forall j :: 0 <= j < k ==> MatchFrom(m, Reverse(seqs[j]), idx, None).None?
    decreases |seqs|
  {
    if seqs != [] && MatchFrom(m, Reverse(seqs[0]), idx, None).None? {
      FirstMatchFrom(m, seqs[1..], idx);
      if FirstMatch(m, seqs, idx).Some? {
        var k :| 0 <= k < |seqs[1..]| && FirstMatch(m, seqs[1..], idx) == MatchFrom(m, Reverse(seqs[1..][k]), idx, None)
          && forall j :: 0 <= j < k ==> MatchFrom(m, Reverse(seqs[1..][j]), idx, None).None?;
        assert seqs[1..][k] == seqs[k + 1];
        forall j | 0 <= j < k + 1 ensures MatchFrom(m, Reverse(seqs[j]), idx, None).None? {
          if j > 0 { assert seqs[j] == seqs[1..][j - 1]; }
        }
      }
    }
  }

  lemma {:induction false} FirstMatchNone(m: MatchFunction, seqs: seq<seq<Category>>, idx: int)
    requires Extends(m)
    ensures FirstMatch(m, seqs, idx).None? <==>
      forall j :: 0 <= j < |seqs| ==> MatchFrom(m, Reverse(seqs[j]), idx, None).None?
    decreases |seqs|
  {
    if seqs != [] {
      FirstMatchNone(m, seqs[1..], idx);
      assert forall j :: 0 <= j < |seqs[1..]| ==> seqs[1..][j] == seqs[j + 1];
    }
  }

  /** The tokens have the categories of one of the sequences `seqs`, with
      LOCATION_WORD dropped. */
  ghost predicate OneOf(tokens: seq<Token>, seqs: seq<seq<Category>>)
  {
    exists k :: 0 <= k < |seqs| && Categories(tokens) == Located(seqs[k])
  }

  /** Each location is a non-empty chain within `[0, idx]`, and each ends
      before the next begins. */
  ghost predicate Separated(found: seq<seq<Token>>, idx: int)
  {
    && (forall i :: 0 <= i < |found| ==> found[i] != [] && Chain(found[i], idx))
    && (forall i :: 0 <= i < |found| - 1 ==> found[i][|found[i]| - 1].end < found[i + 1][0].start)
  }

  lemma ChainWeaken(tokens: seq<Token>, a: int, b: int)
    requires Chain(tokens, a) && a <= b
    ensures Chain(tokens, b)
  {
  }

  lemma SeparatedSnoc(found: seq<seq<Token>>, ts: seq<Token>, a: int, idx: int)
    requires Separated(found, a) && a <= idx
    requires ts != [] && Chain(ts, idx) && a < ts[0].start
    ensures Separated(found + [ts], idx)
  {
    var all: seq<seq<Token>> := found + [ts];
    forall i | 0 <= i < |all| ensures all[i] != [] && Chain(all[i], idx) {
      if i < |found| {
        assert all[i] == found[i];
        ChainWeaken(found[i], a, idx);
      }
    }
    forall i | 0 <= i < |all| - 1 ensures all[i][|all[i]| - 1].end < all[i + 1][0].start {
      assert all[i] == found[i];
      if i == |found| - 1 {
        assert found[i][|found[i]| - 1].end <= a;
      }
    }
  }

  /** Each pass that finds a location finds a chain of tokens within its
      index, and the walk goes on just before it. */
  ghost predicate PassesChain(step: Walker)
  {
    forall i | 0 <= i && step(i).location.Some? ::
      && step(i).location.value != []
      && Chain(step(i).location.value, i)
      && step(i).next == step(i).location.value[0].start - 1
  }

  /** The locations of a walk come in document order: each is a chain of
      tokens, each ends before the next begins, and all lie within
      `[0, idx]`. */
  lemma {:induction false} WalkSeparated(step: Walker, idx: int)
    requires MovesLeft(step) && PassesChain(step)
    ensures Separated(Walk(step, idx), idx)
    decreases idx + 1
  {
    if idx >= 0 {
      var s := step(idx);
      WalkSeparated(step, s.next);
      if s.location.None? {
        assert Walk(step, idx) == Walk(step, s.next);
        ChainsWeaken(Walk(step, s.next), s.next, idx);
      } else {
        SeparatedSnoc(Walk(step, s.next), s.location.value, s.next, idx);
      }
    }
  }

  lemma ChainsWeaken(found: seq<seq<Token>>, a: int, b: int)
    requires Separated(found, a) && a <= b
    ensures Separated(found, b)
  {
    forall i | 0 <= i < |found| ensures Chain(found[i], b) {
      ChainWeaken(found[i], a, b);
    }
  }

  /** If every pass that finds a location finds one of the patterns, so
      does the walk. */
  lemma {:induction false} WalkPatterns(step: Walker, seqs: seq<seq<Category>>, idx: int)
    requires MovesLeft(step)
    requires forall i | 0 <= i && step(i).location.Some? :: OneOf(step(i).location.value, seqs)
    ensures forall i :: 0 <= i < |Walk(step, idx)| ==> OneOf(Walk(step, idx)[i], seqs)
    decreases idx + 1
  {
    if idx >= 0 {
      var s := step(idx);
      WalkPatterns(step, seqs, s.next);
      var before := Walk(step, s.next);
      var found := Walk(step, idx);
      if s.location.None? {
        assert found == before;
      } else {
        assert found == before + [s.location.value];
        forall i | 0 <= i < |found|
          ensures OneOf(found[i], seqs)
        {
          if i < |before| {
            assert found[i] == before[i];
          } else {
            assert found[i] == s.location.value;
          }
        }
      }
    }
  }

  /** The passes of the parser find chains, and patterns of `seqs`. */
  lemma PassesFind(g: Gazetteer, m: MatchFunction, seqs: seq<seq<Category>>, text: string)
    requires Extends(m)
    ensures PassesChain(Passes(g, m, seqs, text))
    ensures forall i | 0 <= i && Passes(g, m, seqs, text)(i).location.Some? ::
      OneOf(Passes(g, m, seqs, text)(i).location.value, seqs)
  {
    var step := Passes(g, m, seqs, text);
    forall i | 0 <= i && step(i).location.Some?
      ensures && step(i).location.value != []
              && Chain(step(i).location.value, i)
              && step(i).next == step(i).location.value[0].start - 1
              && OneOf(step(i).location.value, seqs)
    {
      FirstMatchIsChain(m, seqs, i);
    }
  }

  /** `find_locations_in_text` returns locations in document order, none
      overlapping another. */
  lemma LocationsSeparated(g: Gazetteer, seqs: seq<seq<Category>>, text: string)
    ensures Separated(Locations(g, seqs, text), |text| - 1)
  {
    PassesFollow(g, Dispatch(g, text), seqs, text);
    PassesFind(g, Dispatch(g, text), seqs, text);
    WalkSeparated(Passes(g, Dispatch(g, text), seqs, text), |text| - 1);
  }

  /** Each location `find_locations_in_text` returns follows one of the
      token sequences, with the LOCATION_WORD entries dropped. */
  lemma LocationsPatterns(g: Gazetteer, seqs: seq<seq<Category>>, text: string)
    ensures forall i :: 0 <= i < |Locations(g, seqs, text)| ==> OneOf(Locations(g, seqs, text)[i], seqs)
  {
    PassesFollow(g, Dispatch(g, text), seqs, text);
    PassesFind(g, Dispatch(g, text), seqs, text);
    WalkPatterns(Passes(g, Dispatch(g, text), seqs, text), seqs, |text| - 1);
  }
}
