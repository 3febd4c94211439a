/** The example query strings of an operation: every `query` parameter
    contributes `name=value`, the full string lists all of them and the
    required string only those whose `required` flag is set. */
module Query {
  import opened Optional
  import opened Strings
  import opened Document

  /** A parameter together with its sampled example value
      (`exampleValues.object`; `None` when the sample has no such property). */
  datatype Prepared = Prepared(param: Param, example: Option<Json>)

  predicate IsQuery(x: Prepared)
  {
    x.param.location == "query"
  }

  /** `param.required` is truthy (after the default has been applied). */
  predicate IsRequired(x: Prepared)
  {
    x.param.required == Some(true)
  }

  /** The value put into the query string: an array example is shown as
      `...`, anything else as sampled. */
  function QueryValue(example: Option<Json>): (v: Option<Json>)
    ensures example.Some? && example.value.JArray? ==> v == Some(JString("..."))
    ensures !(example.Some? && example.value.JArray?) ==> v == example
  {
    if example.Some? && example.value.JArray? then Some(JString("...")) else example
  }

  /** `name=encodeURIComponent(value)`; the encoder is a parameter. */
  function Pair(x: Prepared, enc: Option<Json> -> string): string
  {
    x.param.name + "=" + enc(QueryValue(x.example))
  }

  /** The query parameters, in order (`queryParameters`). */
  function QueryOnly(xs: seq<Prepared>): (ys: seq<Prepared>)
    ensures |ys| <= |xs|
    decreases |xs|
  {
    if |xs| == 0 then []
    else QueryOnly(xs[..|xs| - 1]) + (if IsQuery(xs[|xs| - 1]) then [xs[|xs| - 1]] else [])
  }

  /** The required query parameters, in order (`requiredParameters`). */
  function RequiredOnly(xs: seq<Prepared>): (ys: seq<Prepared>)
    ensures |ys| <= |xs|
    decreases |xs|
  {
    if |xs| == 0 then []
    else RequiredOnly(xs[..|xs| - 1]) + (if IsQuery(xs[|xs| - 1]) && IsRequired(xs[|xs| - 1]) then [xs[|xs| - 1]] else [])
  }

  lemma QueryOnlySnoc(xs: seq<Prepared>, x: Prepared)
    ensures QueryOnly(xs + [x]) == QueryOnly(xs) + (if IsQuery(x) then [x] else [])
  {
    assert (xs + [x])[..|xs|] == xs;
  }

  lemma RequiredOnlySnoc(xs: seq<Prepared>, x: Prepared)
    ensures RequiredOnly(xs + [x]) == RequiredOnly(xs) + (if IsQuery(x) && IsRequired(x) then [x] else [])
  {
    assert (xs + [x])[..|xs|] == xs;
  }

  /** A parameter is listed exactly when it is a query parameter, and
      among the required ones exactly when it is also required. */
  lemma {:induction false} FiltersIff(xs: seq<Prepared>, y: Prepared)
    ensures y in QueryOnly(xs) <==> y in xs && IsQuery(y)
    ensures y in RequiredOnly(xs) <==> y in xs && IsQuery(y) && IsRequired(y)
    decreases |xs|
  {
    if |xs| > 0 {
      var init := xs[..|xs| - 1];
      FiltersIff(init, y);
      assert xs == init + [xs[|xs| - 1]];
    }
  }

  function Pairs(ys: seq<Prepared>, enc: Option<Json> -> string): (ps: seq<string>)
    ensures |ps| == |ys|
    ensures forall i :: 0 <= i < |ys| ==> ps[i] == Pair(ys[i], enc)
  {
    seq(|ys|, i requires 0 <= i < |ys| => Pair(ys[i], enc))
  }

  /** Empty without parameters, otherwise `?` and the pairs joined by `&`. */
  function QueryString(ys: seq<Prepared>, enc: Option<Json> -> string): (s: string)
    ensures s == "" <==> |ys| == 0
  {
    if |ys| == 0 then "" else "?" + Join(Pairs(ys, enc), "&")
  }

  /** `s += (s ? '&' : '?') + pair`. */
  function Extend(s: string, pair: string): string
  {
    s + (if s != "" then "&" else "?") + pair
  }

  /** Appending one parameter to the string adds `?` or `&` and its pair. */
  lemma QueryStringSnoc(ys: seq<Prepared>, y: Prepared, enc: Option<Json> -> string)
    ensures QueryString(ys + [y], enc) == Extend(QueryString(ys, enc), Pair(y, enc))
  {
    PairsSnoc(ys, y, enc);
    JoinSnoc(Pairs(ys, enc), Pair(y, enc), "&");
  }

  lemma PairsSnoc(ys: seq<Prepared>, y: Prepared, enc: Option<Json> -> string)
    ensures Pairs(ys + [y], enc) == Pairs(ys, enc) + [Pair(y, enc)]
  {
    var l, r := Pairs(ys + [y], enc), Pairs(ys, enc) + [Pair(y, enc)];
    assert |l| == |r|;
    forall i | 0 <= i < |l|
      ensures l[i] == r[i]
    {
      if i < |ys| {
        assert (ys + [y])[i] == ys[i];
      }
    }
  }

  /** The loop over the parameters of an operation, accumulating the two
      query strings and the two parameter lists. */
  method AssembleQuery(xs: seq<Prepared>, enc: Option<Json> -> string)
    returns (qs: string, rqs: string, queryParams: seq<Prepared>, requiredParams: seq<Prepared>)
    ensures queryParams == QueryOnly(xs) && requiredParams == RequiredOnly(xs)
    ensures qs == QueryString(queryParams, enc)
    ensures rqs == QueryString(requiredParams, enc)
  {
    qs, rqs, queryParams, requiredParams := "", "", [], [];
    var i := 0;
    while i < |xs|
      invariant 0 <= i <= |xs|
      invariant queryParams == QueryOnly(xs[..i]) && requiredParams == RequiredOnly(xs[..i])
      invariant qs == QueryString(queryParams, enc) && rqs == QueryString(requiredParams, enc)
    {
      var x := xs[i];
      assert xs[..i + 1] == xs[..i] + [x];
      QueryOnlySnoc(xs[..i], x);
      RequiredOnlySnoc(xs[..i], x);
      if IsQuery(x) {
        QueryStringSnoc(queryParams, x, enc);
        qs := Extend(qs, Pair(x, enc));
        queryParams := queryParams + [x];
        if IsRequired(x) {
          QueryStringSnoc(requiredParams, x, enc);
          rqs := Extend(rqs, Pair(x, enc));
          requiredParams := requiredParams + [x];
        }
      }
      i := i + 1;
    }
    assert xs[..|xs|] == xs;
  }

  /** The required parameters are the query parameters that are required. */
  lemma {:induction false} RequiredOfQuery(xs: seq<Prepared>)
    ensures RequiredOnly(xs) == RequiredOnly(QueryOnly(xs))
    decreases |xs|
  {
    if |xs| > 0 {
      var init := xs[..|xs| - 1];
      var x := xs[|xs| - 1];
      RequiredOfQuery(init);
      assert RequiredOnly(xs) == RequiredOnly(init) + (if IsQuery(x) && IsRequired(x) then [x] else []);
      assert QueryOnly(xs) == QueryOnly(init) + (if IsQuery(x) then [x] else []);
      if IsQuery(x) {
        RequiredOnlySnoc(QueryOnly(init), x);
      } else {
        assert QueryOnly(xs) == QueryOnly(init);
      }
    }
  }

  /** When every query parameter is required, both strings coincide. */
  lemma AllRequiredSameString(xs: seq<Prepared>, enc: Option<Json> -> string)
    requires forall x :: x in xs && IsQuery(x) ==> IsRequired(x)
    ensures QueryString(RequiredOnly(xs), enc) == QueryString(QueryOnly(xs), enc)
  {
    RequiredOfQuery(xs);
    forall y | y in QueryOnly(xs)
      ensures IsQuery(y) && IsRequired(y)
    {
      FiltersIff(xs, y);
    }
    AllRequiredKept(QueryOnly(xs));
  }

  lemma {:induction false} AllRequiredKept(ys: seq<Prepared>)
    requires forall y :: y in ys ==> IsQuery(y) && IsRequired(y)
    ensures RequiredOnly(ys) == ys
    decreases |ys|
  {
    if |ys| > 0 {
      var init, last := ys[..|ys| - 1], ys[|ys| - 1];
      assert ys == init + [last];
      AllRequiredKept(init);
      RequiredOnlySnoc(init, last);
    }
  }
}
