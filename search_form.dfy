/** The search form in the browser: the submit handler's guards, which
    decide between an error and a request, and the request URL, which
    carries only the non-empty fields. */
module SearchForm {
  import opened Utf8
  import FormUrlEncoded
  import QueryString
  import SearchQuery
  import Strings

  /** The values of the form's four inputs. */
  datatype Fields = Fields(brandId: string, modelId: string, year: string, price: string)

  predicate AllEmpty(f: Fields) {
    f.brandId == "" && f.modelId == "" && f.year == "" && f.price == ""
  }

  /** Every parameter the URL can carry, in the order the form appends them. */
  function Candidates(f: Fields): seq<(string, string)> {
    [("brand", f.brandId), ("model", f.modelId), ("year", f.year), ("price", f.price)]
  }

  /** The pairs of `ps` with a non-empty value, in their order. */
  function KeepNonEmpty(ps: seq<(string, string)>): seq<(string, string)> {
    if ps == [] then []
    else (if ps[0].1 != "" then [ps[0]] else []) + KeepNonEmpty(ps[1..])
  }

  /** The query parameters of a search. */
  function Params(f: Fields): seq<(string, string)> {
    KeepNonEmpty(Candidates(f))
  }

  /** The URL a search fetches. */
  function SearchUrl(f: Fields): string {
    "/search?" + FormUrlEncoded.Serialize(Params(f))
  }

  /** Builds the search URL by appending each non-empty field to an empty
      parameter list, in order, and serializing the list. */
  method BuildSearchUrl(brandId: string, modelId: string, year: string, price: string)
    returns (url: string)
    ensures url == SearchUrl(Fields(brandId, modelId, year, price))
  {
    ghost var f := Fields(brandId, modelId, year, price);
    var params: seq<(string, string)> := [];
    ghost var b := if brandId != "" then [("brand", brandId)] else [];
    ghost var m := if modelId != "" then [("model", modelId)] else [];
    ghost var y := if year != "" then [("year", year)] else [];
    ghost var p := if price != "" then [("price", price)] else [];
    if brandId != "" { params := params + [("brand", brandId)]; }
    assert params == b;
    if modelId != "" { params := params + [("model", modelId)]; }
    assert params == b + m;
    if year != "" { params := params + [("year", year)]; }
    assert params == b + m + y;
    if price != "" { params := params + [("price", price)]; }
    assert params == b + m + y + p;
    ParamsUnfolded(f);
    url := "/search?" + FormUrlEncoded.Serialize(params);
  }

  lemma {:induction false} KeepSnoc(ps: seq<(string, string)>, p: (string, string))
    ensures KeepNonEmpty(ps + [p]) == KeepNonEmpty(ps) + (if p.1 != "" then [p] else [])
  {
    if ps == [] {
      assert ([] + [p])[1..] == [];
    } else {
      assert (ps + [p])[0] == ps[0];
      assert (ps + [p])[1..] == ps[1..] + [p];
      KeepSnoc(ps[1..], p);
    }
  }

  lemma ParamsUnfolded(f: Fields)
    ensures Params(f) ==
      (if f.brandId != "" then [("brand", f.brandId)] else []) +
      (if f.modelId != "" then [("model", f.modelId)] else []) +
      (if f.year != "" then [("year", f.year)] else []) +
      (if f.price != "" then [("price", f.price)] else [])
  {
    var none: seq<(string, string)> := [];
    var c := Candidates(f);
    KeepSnoc(none, c[0]);
    KeepSnoc(none + [c[0]], c[1]);
    KeepSnoc(none + [c[0]] + [c[1]], c[2]);
    KeepSnoc(none + [c[0]] + [c[1]] + [c[2]], c[3]);
    assert none + [c[0]] + [c[1]] + [c[2]] + [c[3]] == c;
  }

  // ---------------------------------------------------------------------
  // Which parameters the URL carries

  /** The position of a parameter name in the order brand, model, year, price. */
  function NameRank(name: string): nat {
    if name == "brand" then 0
    else if name == "model" then 1
    else if name == "year" then 2
    else if name == "price" then 3
    else 4
  }

  predicate NamesAscending(ps: seq<(string, string)>) {
    forall i, j :: 0 <= i < j < |ps| ==> NameRank(ps[i].0) < NameRank(ps[j].0)
  }

  lemma {:induction false} KeepMembers(ps: seq<(string, string)>, p: (string, string))
    ensures p in KeepNonEmpty(ps) <==> p in ps && p.1 != ""
  {
    if ps != [] {
      KeepMembers(ps[1..], p);
      assert p in ps <==> p == ps[0] || p in ps[1..];
    }
  }

  lemma {:induction false} KeepAscending(ps: seq<(string, string)>)
    requires NamesAscending(ps)
    ensures NamesAscending(KeepNonEmpty(ps))
  {
    if ps != [] {
      var rest := KeepNonEmpty(ps[1..]);
      KeepAscending(ps[1..]);
      forall k | 0 <= k < |rest| ensures NameRank(ps[0].0) < NameRank(rest[k].0) {
        KeepMembers(ps[1..], rest[k]);
        var j :| 0 <= j < |ps[1..]| && ps[1..][j] == rest[k];
        assert ps[j + 1] == rest[k];
      }
    }
  }

  /** A field becomes a parameter exactly when it is non-empty, under its
      own name, and the parameters keep the order brand, model, year, price. */
  lemma ParamsIncluded(f: Fields)
    ensures forall p :: p in Params(f) <==> p in Candidates(f) && p.1 != ""
    ensures NamesAscending(Params(f))
  {
    forall p ensures p in Params(f) <==> p in Candidates(f) && p.1 != "" {
      KeepMembers(Candidates(f), p);
    }
    KeepAscending(Candidates(f));
  }

  lemma SerializeEmpty(pairs: seq<(string, string)>)
    ensures FormUrlEncoded.Serialize(pairs) == "" <==> pairs == []
  {
    var parts := seq(|pairs|, i requires 0 <= i < |pairs| => FormUrlEncoded.SerializePair(pairs[i]));
    Strings.JoinEmpty(parts, "&");
    if pairs != [] {
      assert |parts[0]| > 0;
    }
  }

  /** The URL always starts with `/search?`, and is exactly that when every
      field is empty. */
  lemma SearchUrlShape(f: Fields)
    ensures |SearchUrl(f)| >= 8 && SearchUrl(f)[..8] == "/search?"
    ensures SearchUrl(f) == "/search?" <==> AllEmpty(f)
  {
    ParamsUnfolded(f);
    SerializeEmpty(Params(f));
    assert |SearchUrl(f)| == 8 + |FormUrlEncoded.Serialize(Params(f))|;
  }

  // ---------------------------------------------------------------------
  // What the server reads from the URL

  lemma {:induction false} DecodedConcat(a: seq<(string, string)>, b: seq<(string, string)>)
    ensures QueryString.Decoded(a + b) == QueryString.Decoded(a) + QueryString.Decoded(b)
  {
  }

  /** The first byte of an encoded string that starts with an ASCII character. */
  lemma EncodeFirst(s: string)
    requires s != [] && s[0] as int < 0x80
    ensures Encode(s)[0] as int == s[0] as int
  {
  }

  lemma GetCons(x: (Bytes, Bytes), rest: QueryString.Values, key: Bytes)
    ensures QueryString.Get([x] + rest, key) == if x.0 == key then x.1 else QueryString.Get(rest, key)
  {
    assert ([x] + rest)[1..] == rest;
  }

  /** Decoding the kept pairs of `ps` one candidate at a time. */
  lemma DecodedKeepCons(ps: seq<(string, string)>)
    requires ps != []
    ensures QueryString.Decoded(KeepNonEmpty(ps)) ==
            (if ps[0].1 != "" then [(Encode(ps[0].0), Encode(ps[0].1))] else [])
            + QueryString.Decoded(KeepNonEmpty(ps[1..]))
  {
    var head := if ps[0].1 != "" then [ps[0]] else [];
    DecodedConcat(head, KeepNonEmpty(ps[1..]));
  }

  lemma {:induction false} GetMissing(ps: seq<(string, string)>, key: Bytes)
    requires forall i :: 0 <= i < |ps| ==> Encode(ps[i].0) != key
    ensures QueryString.Get(QueryString.Decoded(KeepNonEmpty(ps)), key) == []
  {
    if ps != [] {
      DecodedKeepCons(ps);
      GetMissing(ps[1..], key);
      var rest := QueryString.Decoded(KeepNonEmpty(ps[1..]));
      if ps[0].1 != "" {
        var x := (Encode(ps[0].0), Encode(ps[0].1));
        GetCons(x, rest, key);
        assert x.0 != key;
        assert QueryString.Decoded(KeepNonEmpty(ps)) == [x] + rest;
      } else {
        assert QueryString.Decoded(KeepNonEmpty(ps)) == rest;
      }
    }
  }

  /** `Get` finds the value of the one candidate whose name is `key`, or
      nothing when that value was left out. */
  lemma {:induction false} GetKept(ps: seq<(string, string)>, key: Bytes, j: nat)
    requires j < |ps|
    requires forall i :: 0 <= i < |ps| ==> (Encode(ps[i].0) == key <==> i == j)
    ensures QueryString.Get(QueryString.Decoded(KeepNonEmpty(ps)), key) == Encode(ps[j].1)
  {
    DecodedKeepCons(ps);
    var rest := QueryString.Decoded(KeepNonEmpty(ps[1..]));
    if ps[0].1 != "" {
      var x := (Encode(ps[0].0), Encode(ps[0].1));
      GetCons(x, rest, key);
      assert QueryString.Decoded(KeepNonEmpty(ps)) == [x] + rest;
    } else {
      assert QueryString.Decoded(KeepNonEmpty(ps)) == rest;
    }
    if j == 0 {
      if ps[0].1 == "" {
        GetMissing(ps[1..], key);
      }
    } else {
      GetKept(ps[1..], key, j - 1);
    }
  }

  /** The raw query of `prefix?body`, for a prefix without `?`. */
  lemma RawQueryAfter(prefix: string, body: string)
    requires forall i :: 0 <= i < |prefix| ==> prefix[i] as int < 0x80 && prefix[i] != '?'
    ensures QueryString.RawQuery(QueryString.Wire(prefix + "?" + body)) == QueryString.Wire(body)
  {
    EncodeConcat(prefix, "?");
    EncodeConcat(prefix + "?", body);
    EncodeAscii(prefix);
    assert Encode("?") == [QueryString.QuestionMark];
    assert QueryString.QuestionMark !in Encode(prefix) by {
      forall i | 0 <= i < |Encode(prefix)| ensures Encode(prefix)[i] != QueryString.QuestionMark {
        assert prefix[i] != '?';
      }
    }
    QueryString.CutAfter(Encode(prefix), QueryString.QuestionMark, Encode(body));
  }

  lemma WireOfUrl(f: Fields)
    ensures QueryString.RawQuery(QueryString.Wire(SearchUrl(f)))
            == QueryString.Wire(FormUrlEncoded.Serialize(Params(f)))
  {
    var body := FormUrlEncoded.Serialize(Params(f));
    SearchPathPlain();
    assert SearchUrl(f) == "/search" + "?" + body;
    RawQueryAfter("/search", body);
  }

  /** The path of the search endpoint is ASCII and holds no `?`.  Kept apart
      from `WireOfUrl` only so that its literal facts are proved on their own. */
  lemma SearchPathPlain()
    ensures "/search?" == "/search" + "?"
    ensures forall i :: 0 <= i < |"/search"| ==> "/search"[i] as int < 0x80 && "/search"[i] != '?'
  {
  }

  /** The four parameter names stay distinct once encoded. */
  lemma NamesDistinct(f: Fields, j: nat)
    requires j < 4
    ensures forall i :: 0 <= i < 4 ==>
              (Encode(Candidates(f)[i].0) == Encode(Candidates(f)[j].0) <==> i == j)
  {
    EncodeFirst("brand");
    EncodeFirst("model");
    EncodeFirst("year");
    EncodeFirst("price");
  }

  /** The server's `Get` of the j-th parameter name. */
  lemma ServerGet(f: Fields, j: nat)
    requires j < 4
    ensures var q := QueryString.ParseQuery(QueryString.RawQuery(QueryString.Wire(SearchUrl(f))));
            QueryString.Get(q, Encode(Candidates(f)[j].0)) == Encode(Candidates(f)[j].1)
  {
    WireOfUrl(f);
    QueryString.ParseSerialized(Params(f));
    NamesDistinct(f, j);
    GetKept(Candidates(f), Encode(Candidates(f)[j].0), j);
  }

  /** The server reads each field back from the URL the form fetches: the
      UTF-8 bytes of the field, empty exactly when the field was left out. */
  lemma ServerReadsFields(f: Fields)
    ensures SearchQuery.RequestFilters(QueryString.Wire(SearchUrl(f))) ==
            SearchQuery.Filters(Encode(f.brandId), Encode(f.modelId), Encode(f.year), Encode(f.price))
  {
    var c := Candidates(f);
    assert c[0] == ("brand", f.brandId) && c[1] == ("model", f.modelId);
    assert c[2] == ("year", f.year) && c[3] == ("price", f.price);
    ServerGet(f, 0);
    ServerGet(f, 1);
    ServerGet(f, 2);
    ServerGet(f, 3);
  }

  // ---------------------------------------------------------------------
  // The submit handler

  /** What submitting the form leads to. */
  datatype Outcome =
    | FormInvalid      // `validateForm` marks the brand field and nothing is sent
    | NoCriteria       // "at least one criterion"
    | YearNotNumber    // "the year must be a number"
    | PriceNotNumber   // "the price must be a number"
    | Request(url: string)  // `fetch` of the search URL

  /** `validateForm`: the form is valid unless every field is empty. */
  function ValidateForm(f: Fields): (valid: bool)
    ensures valid <==> !AllEmpty(f)
    ensures valid <==> Params(f) != []
  {
    ParamsUnfolded(f);
    !(f.brandId == "" && f.modelId == "" && f.year == "" && f.price == "")
  }

  /** The submit handler's guards, in order; `isNumeric(s)` stands for
      `!isNaN(s)`. */
  function Submit(f: Fields, isNumeric: string -> bool): (o: Outcome)
    ensures o == FormInvalid <==> AllEmpty(f)
    ensures o == YearNotNumber <==> !AllEmpty(f) && f.year != "" && !isNumeric(f.year)
    ensures o == PriceNotNumber <==>
              !AllEmpty(f) && (f.year == "" || isNumeric(f.year)) && f.price != "" && !isNumeric(f.price)
    ensures o.Request? <==>
              !AllEmpty(f) && (f.year == "" || isNumeric(f.year)) && (f.price == "" || isNumeric(f.price))
    ensures o.Request? ==> o.url == SearchUrl(f)
  {
    if !ValidateForm(f) then FormInvalid
    else if f.brandId == "" && f.modelId == "" && f.year == "" && f.price == "" then NoCriteria
    else if f.year != "" && !isNumeric(f.year) then YearNotNumber
    else if f.price != "" && !isNumeric(f.price) then PriceNotNumber
    else Request(SearchUrl(f))
  }

  /** The handler's own all-empty check can never fire: `validateForm` has
      already rejected that case. */
  lemma NoCriteriaUnreachable(f: Fields, isNumeric: string -> bool)
    ensures Submit(f, isNumeric) != NoCriteria
  {
  }

  /** Filters built from a form with some field filled in are not all empty. */
  lemma EncodedFieldsFilter(f: Fields)
    requires !AllEmpty(f)
    ensures !SearchQuery.NoFilters(SearchQuery.Filters(Encode(f.brandId), Encode(f.modelId), Encode(f.year), Encode(f.price)))
  {
    var g := SearchQuery.Filters(Encode(f.brandId), Encode(f.modelId), Encode(f.year), Encode(f.price));
    if f.brandId != "" {
      assert SearchQuery.ValueOf(g, SearchQuery.BrandFilter) != [];
    } else if f.modelId != "" {
      assert SearchQuery.ValueOf(g, SearchQuery.ModelFilter) != [];
    } else if f.year != "" {
      assert SearchQuery.ValueOf(g, SearchQuery.YearFilter) != [];
    } else {
      assert SearchQuery.ValueOf(g, SearchQuery.PriceFilter) != [];
    }
  }

  /** A search the form sends always reaches the server with at least one
      filter, never as the unfiltered base query, and a year or price it
      sends passed the numeric check. */
  lemma SubmittedSearchIsFiltered(f: Fields, isNumeric: string -> bool)
    requires Submit(f, isNumeric).Request?
    ensures var g := SearchQuery.RequestFilters(QueryString.Wire(Submit(f, isNumeric).url));
            && g == SearchQuery.Filters(Encode(f.brandId), Encode(f.modelId), Encode(f.year), Encode(f.price))
            && !SearchQuery.NoFilters(g)
            && SearchQuery.QueryText(SearchQuery.Plan(g)) != SearchQuery.BaseQuery
            && (g.year != [] ==> isNumeric(f.year))
            && (g.price != [] ==> isNumeric(f.price))
  {
    var o := Submit(f, isNumeric);
    assert o.url == SearchUrl(f) && !AllEmpty(f);
    ServerReadsFields(f);
    EncodedFieldsFilter(f);
    var g := SearchQuery.Filters(Encode(f.brandId), Encode(f.modelId), Encode(f.year), Encode(f.price));
    SearchQuery.NoFiltersBaseQuery(g);
  }
}
