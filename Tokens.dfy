/**
 * The entries of `found_tokens`, the categories of `token_definitions`, and
 * the codes `is_city` and `is_region` read from the tokens already found.
 */
module Tokens {
  import opened Optional
  import opened Gazetteer

  /** The keys of `token_definitions`. */
  datatype Category = COUNTRY | CITY | REGION | LOCATION_WORD

  /** The `type` of a found token, with its `code` where it has one: the
      country code of a country, the region code of a region. */
  datatype TokenKind = CountryToken(code: string) | RegionToken(code: string) | CityToken

  /** One entry of `found_tokens`. `end` is the index of the token's last
      character (inclusive), as `end_index` is in the source. */
  datatype Token = Token(
    kind: TokenKind, lat: Coord, lon: Coord, geonameid: GeonameId,
    matched: string, start: int, end: int)

  /** `found_tokens` of a result, or none when there is no result yet. */
  function TokensOf(result: Option<seq<Token>>): seq<Token>
  {
    if result.Some? then result.value else []
  }

  /** The code of the last COUNTRY token, as the scan in `is_city` and
      `is_region` leaves it. */
  function CountryCodeIn(tokens: seq<Token>): Option<string>
  {
    if tokens == [] then None
    else if tokens[|tokens| - 1].kind.CountryToken? then Some(tokens[|tokens| - 1].kind.code)
    else CountryCodeIn(tokens[..|tokens| - 1])
  }

  /** The code of the last REGION token, as the scan in `is_city` leaves it. */
  function RegionCodeIn(tokens: seq<Token>): Option<string>
  {
    if tokens == [] then None
    else if tokens[|tokens| - 1].kind.RegionToken? then Some(tokens[|tokens| - 1].kind.code)
    else RegionCodeIn(tokens[..|tokens| - 1])
  }

  /** There is a country code exactly when there is a COUNTRY token, and it
      is the code of the last one. */
  lemma {:induction false} CountryCodeInIsLast(tokens: seq<Token>, code: string)
    ensures CountryCodeIn(tokens).None? <==>
      forall i :: 0 <= i < |tokens| ==> !tokens[i].kind.CountryToken?
    ensures CountryCodeIn(tokens) == Some(code) <==>
      exists i :: 0 <= i < |tokens| && tokens[i].kind == CountryToken(code)
        && forall j :: i < j < |tokens| ==> !tokens[j].kind.CountryToken?
    decreases |tokens|
  {
    if tokens != [] {
      var n := |tokens| - 1;
      var init := tokens[..n];
      CountryCodeInIsLast(init, code);
      assert forall i :: 0 <= i < n ==> init[i] == tokens[i];
      if tokens[n].kind.CountryToken? {
        assert CountryCodeIn(tokens) == Some(tokens[n].kind.code);
        if tokens[n].kind.code == code {
          assert tokens[n].kind == CountryToken(code);
        } else {
          forall i | 0 <= i < |tokens| && tokens[i].kind == CountryToken(code)
            ensures exists j :: i < j < |tokens| && tokens[j].kind.CountryToken?
          {
            assert i != n;
            assert tokens[n].kind.CountryToken?;
          }
        }
      } else {
        assert CountryCodeIn(tokens) == CountryCodeIn(init);
        if CountryCodeIn(init) == Some(code) {
          var i :| 0 <= i < |init| && init[i].kind == CountryToken(code)
            && forall j :: i < j < |init| ==> !init[j].kind.CountryToken?;
          assert tokens[i].kind == CountryToken(code);
          assert forall j :: i < j < |tokens| ==> !tokens[j].kind.CountryToken?;
        }
        forall i | 0 <= i < |tokens| && tokens[i].kind == CountryToken(code)
            && (forall j :: i < j < |tokens| ==> !tokens[j].kind.CountryToken?)
          ensures CountryCodeIn(tokens) == Some(code)
        {
          assert i < n;
          assert init[i].kind == CountryToken(code);
          assert forall j :: i < j < |init| ==> !init[j].kind.CountryToken?;
        }
      }
    }
  }

  /** There is a region code exactly when there is a REGION token, and it
      is the code of the last one. */
  lemma {:induction false} RegionCodeInIsLast(tokens: seq<Token>, code: string)
    ensures RegionCodeIn(tokens).None? <==>
      forall i :: 0 <= i < |tokens| ==> !tokens[i].kind.RegionToken?
    ensures RegionCodeIn(tokens) == Some(code) <==>
      exists i :: 0 <= i < |tokens| && tokens[i].kind == RegionToken(code)
        && forall j :: i < j < |tokens| ==> !tokens[j].kind.RegionToken?
    decreases |tokens|
  {
    if tokens != [] {
      var n := |tokens| - 1;
      var init := tokens[..n];
      RegionCodeInIsLast(init, code);
      assert forall i :: 0 <= i < n ==> init[i] == tokens[i];
      if tokens[n].kind.RegionToken? {
        assert RegionCodeIn(tokens) == Some(tokens[n].kind.code);
        if tokens[n].kind.code == code {
          assert tokens[n].kind == RegionToken(code);
        } else {
          forall i | 0 <= i < |tokens| && tokens[i].kind == RegionToken(code)
            ensures exists j :: i < j < |tokens| && tokens[j].kind.RegionToken?
          {
            assert i != n;
            assert tokens[n].kind.RegionToken?;
          }
        }
      } else {
        assert RegionCodeIn(tokens) == RegionCodeIn(init);
        if RegionCodeIn(init) == Some(code) {
          var i :| 0 <= i < |init| && init[i].kind == RegionToken(code)
            && forall j :: i < j < |init| ==> !init[j].kind.RegionToken?;
          assert tokens[i].kind == RegionToken(code);
          assert forall j :: i < j < |tokens| ==> !tokens[j].kind.RegionToken?;
        }
        forall i | 0 <= i < |tokens| && tokens[i].kind == RegionToken(code)
            && (forall j :: i < j < |tokens| ==> !tokens[j].kind.RegionToken?)
          ensures RegionCodeIn(tokens) == Some(code)
        {
          assert i < n;
          assert init[i].kind == RegionToken(code);
          assert forall j :: i < j < |init| ==> !init[j].kind.RegionToken?;
        }
      }
    }
  }

  /** The loop over `found_tokens` at the head of `is_city` (and, for the
      country code alone, of `is_region`). */
  method SequenceCodes(previousResult: Option<seq<Token>>) returns (countryCode: Option<string>, regionCode: Option<string>)
    ensures countryCode == CountryCodeIn(TokensOf(previousResult))
    ensures regionCode == RegionCodeIn(TokensOf(previousResult))
  {
    countryCode, regionCode := None, None;
    if previousResult.Some? {
      var foundTokens := previousResult.value;
      for i := 0 to |foundTokens|
        invariant countryCode == CountryCodeIn(foundTokens[..i])
        invariant regionCode == RegionCodeIn(foundTokens[..i])
      {
        assert foundTokens[..i + 1][..i] == foundTokens[..i];
        var kind := foundTokens[i].kind;
        if kind.CountryToken? {
          countryCode := Some(kind.code);
        } else if kind.RegionToken? {
          regionCode := Some(kind.code);
        }
      }
      assert foundTokens[..|foundTokens|] == foundTokens;
    }
  }
}
