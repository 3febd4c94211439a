/** The media types an operation consumes and produces, its header and body
    parameters, and the header list shown in code samples (`allHeaders`). */
module Headers {
  import opened Optional
  import opened Assoc
  import opened Document
  import Parameters

  /** The media types of the request body's `content`, in order; none
      without a request body. */
  function Consumes(op: Operation, lookupBody: string -> Option<Body>): (r: Result<seq<string>>)
    ensures op.requestBody.None? ==> r == Ok([])
    ensures op.requestBody.Some? ==> (r.Ok? <==> ResolveBody(op.requestBody.value, lookupBody).Ok?)
    ensures op.requestBody.Some? && r.Ok? ==> r.value == Keys(ResolveBody(op.requestBody.value, lookupBody).value.content)
  {
    match op.requestBody
    case None => Ok([])
    case Some(rb) =>
      match ResolveBody(rb, lookupBody)
      case Ok(b) => Ok(Keys(b.content))
      case Err(e) => Err(e)
  }

  /** The media types of every response's `content`, response by response,
      duplicates kept: a media type is produced exactly when some response
      has it, and nothing is produced exactly when no response has content. */
  function Produces(responses: seq<(string, BodyOrRef)>, lookupBody: string -> Option<Body>): (r: Result<seq<string>>)
    ensures r.Err? <==> exists i :: 0 <= i < |responses| && ResolveBody(responses[i].1, lookupBody).Err?
    ensures r.Ok? ==> forall m :: m in r.value <==>
      exists i :: 0 <= i < |responses| && m in Keys(ResolveBody(responses[i].1, lookupBody).value.content)
    ensures r.Ok? ==> (|r.value| == 0 <==>
      forall i :: 0 <= i < |responses| ==> |ResolveBody(responses[i].1, lookupBody).value.content| == 0)
    decreases |responses|
  {
    if |responses| == 0 then Ok([])
    else
      match ResolveBody(responses[0].1, lookupBody)
      case Err(e) => Err(e)
      case Ok(b) =>
        assert forall i :: 1 <= i < |responses| ==> responses[i] == responses[1..][i - 1];
        match Produces(responses[1..], lookupBody)
        case Err(e) => Err(e)
        case Ok(rest) => Ok(Keys(b.content) + rest)
  }

  /** `allHeaders` makes up a `Content-Type` header exactly when some
      response of the operation has content. */
  lemma ContentTypeIffResponseContent(headerParams: seq<Param>, responses: seq<(string, BodyOrRef)>,
                                      lookupBody: string -> Option<Body>, consumes: seq<string>)
    requires Produces(responses, lookupBody).Ok?
    ensures var h := AllHeaders(headerParams, Produces(responses, lookupBody).value, consumes);
      (exists i :: 0 <= i < |h| && h[i].MediaHeader? && h[i].name == "Content-Type") <==>
      exists i :: 0 <= i < |responses| && |ResolveBody(responses[i].1, lookupBody).value.content| > 0
  {
    AllHeadersShape(headerParams, Produces(responses, lookupBody).value, consumes);
  }

  /** The first media type produced is the first of the first response
      that has any content. */
  lemma {:induction false} ProducesFirst(responses: seq<(string, BodyOrRef)>, lookupBody: string -> Option<Body>, k: nat)
    requires Produces(responses, lookupBody).Ok?
    requires k < |responses|
    requires forall i :: 0 <= i < k ==> |ResolveBody(responses[i].1, lookupBody).value.content| == 0
    requires |ResolveBody(responses[k].1, lookupBody).value.content| > 0
    ensures |Produces(responses, lookupBody).value| > 0
    ensures Produces(responses, lookupBody).value[0] == ResolveBody(responses[k].1, lookupBody).value.content[0].0
    decreases k
  {
    var b := ResolveBody(responses[0].1, lookupBody).value;
    if k > 0 {
      assert forall i :: 1 <= i < |responses| ==> responses[i] == responses[1..][i - 1];
      ProducesFirst(responses[1..], lookupBody, k - 1);
      assert Keys(b.content) == [];
    }
  }

  /** An entry of `allHeaders`: a header parameter, or one of the two
      headers made up from the media types. */
  datatype Header =
    | ParamHeader(param: Param)
    | MediaHeader(name: string, exampleJson: string, exampleObject: string)

  /** The header parameters, in order (`headerParameters`). */
  function HeaderParameters(ps: seq<Param>): (hs: seq<Param>)
    ensures |hs| <= |ps|
    decreases |ps|
  {
    if |ps| == 0 then []
    else HeaderParameters(ps[..|ps| - 1]) + (if ps[|ps| - 1].location == "header" then [ps[|ps| - 1]] else [])
  }

  /** A parameter is a header parameter exactly when it is listed with
      location `header`. */
  lemma {:induction false} HeaderParametersIff(ps: seq<Param>, p: Param)
    ensures p in HeaderParameters(ps) <==> p in ps && p.location == "header"
    decreases |ps|
  {
    if |ps| > 0 {
      var init := ps[..|ps| - 1];
      HeaderParametersIff(init, p);
      assert ps == init + [ps[|ps| - 1]];
    }
  }

  /** The last of the first `n` parameters in `body`, if any. */
  function BodyParameterIn(ps: seq<Param>, n: nat): Option<Param>
    requires n <= |ps|
  {
    if n == 0 then None
    else if ps[n - 1].location == "body" then Some(ps[n - 1])
    else BodyParameterIn(ps, n - 1)
  }

  /** `bodyParameter`: the last parameter in `body`, if any. */
  function BodyParameter(ps: seq<Param>): Option<Param>
  {
    BodyParameterIn(ps, |ps|)
  }

  lemma {:induction false} BodyParameterInIsLast(ps: seq<Param>, n: nat)
    requires n <= |ps|
    ensures BodyParameterIn(ps, n).None? <==> forall i :: 0 <= i < n ==> ps[i].location != "body"
    ensures BodyParameterIn(ps, n).Some? ==>
      exists i :: (0 <= i < n && ps[i] == BodyParameterIn(ps, n).value && ps[i].location == "body" &&
                   forall j :: i < j < n ==> ps[j].location != "body")
  {
    if n > 0 && ps[n - 1].location != "body" {
      BodyParameterInIsLast(ps, n - 1);
    }
  }

  /** There is a body parameter exactly when some parameter is in `body`,
      and it is the last such one. */
  lemma BodyParameterIsLast(ps: seq<Param>)
    ensures BodyParameter(ps).None? <==> forall i :: 0 <= i < |ps| ==> ps[i].location != "body"
    ensures BodyParameter(ps).Some? ==>
      exists i :: (0 <= i < |ps| && ps[i] == BodyParameter(ps).value && ps[i].location == "body" &&
                   forall j :: i < j < |ps| ==> ps[j].location != "body")
  {
    BodyParameterInIsLast(ps, |ps|);
  }

  /** A made-up header whose example is the media type, quoted in the JSON form. */
  function MediaTypeHeader(name: string, mediaType: string): (h: Header)
    ensures h.MediaHeader? && h.name == name && h.exampleObject == mediaType
  {
    MediaHeader(name, "'" + mediaType + "'", mediaType)
  }

  function AsHeaders(hs: seq<Param>): (r: seq<Header>)
    ensures |r| == |hs|
    ensures forall i :: 0 <= i < |hs| ==> r[i] == ParamHeader(hs[i])
  {
    seq(|hs|, i requires 0 <= i < |hs| => ParamHeader(hs[i]))
  }

  /** `allHeaders`: the header parameters, then `Content-Type` with the
      first produced media type, then `Accept` with the first consumed one,
      each only when there is such a media type. The names are as
      openapi3.js has them, though `Accept` would be the conventional name for
      the produced type and `Content-Type` for the consumed one. */
  function AllHeaders(headerParams: seq<Param>, produces: seq<string>, consumes: seq<string>): seq<Header>
  {
    AsHeaders(headerParams)
      + (if |produces| > 0 then [MediaTypeHeader("Content-Type", produces[0])] else [])
      + (if |consumes| > 0 then [MediaTypeHeader("Accept", consumes[0])] else [])
  }

  /** The header list starts with every header parameter in order; a
      `Content-Type` header is made up exactly when something is produced,
      and then carries the first produced type; an `Accept` header exactly
      when something is consumed, carrying the first consumed type; no
      other header is made up. */
  lemma AllHeadersShape(headerParams: seq<Param>, produces: seq<string>, consumes: seq<string>)
    ensures var h := AllHeaders(headerParams, produces, consumes);
      |h| == |headerParams| + (if |produces| > 0 then 1 else 0) + (if |consumes| > 0 then 1 else 0) &&
      (forall i :: 0 <= i < |headerParams| ==> h[i] == ParamHeader(headerParams[i])) &&
      (forall i :: |headerParams| <= i < |h| ==> h[i].MediaHeader?)
    ensures var h := AllHeaders(headerParams, produces, consumes);
      (exists i :: 0 <= i < |h| && h[i].MediaHeader? && h[i].name == "Content-Type") <==> |produces| > 0
    ensures var h := AllHeaders(headerParams, produces, consumes);
      (exists i :: 0 <= i < |h| && h[i].MediaHeader? && h[i].name == "Accept") <==> |consumes| > 0
    ensures var h := AllHeaders(headerParams, produces, consumes);
      forall i :: 0 <= i < |h| && h[i].MediaHeader? && h[i].name == "Content-Type" ==> h[i].exampleObject == produces[0]
    ensures var h := AllHeaders(headerParams, produces, consumes);
      forall i :: 0 <= i < |h| && h[i].MediaHeader? && h[i].name == "Accept" ==> h[i].exampleObject == consumes[0]
    ensures var h := AllHeaders(headerParams, produces, consumes);
      |produces| > 0 ==> h[|headerParams|] == MediaTypeHeader("Content-Type", produces[0])
    ensures var h := AllHeaders(headerParams, produces, consumes);
      |consumes| > 0 ==> h[|h| - 1] == MediaTypeHeader("Accept", consumes[0])
  {
    var h := AllHeaders(headerParams, produces, consumes);
    var n := |headerParams|;
    if |produces| > 0 {
      assert h[n] == MediaTypeHeader("Content-Type", produces[0]);
    }
    if |consumes| > 0 {
      var k := n + (if |produces| > 0 then 1 else 0);
      assert h[k] == MediaTypeHeader("Accept", consumes[0]);
    }
  }

  /** The media type of the `Accept` header (`consumes[0]`) is the content
      type whose schema the synthetic body parameter carries, and that
      parameter is the operation's `bodyParameter`. */
  lemma AcceptMatchesBodyParameter(op: Operation, shared: seq<ParamOrRef>,
                                   lookupParam: string -> Option<Param>,
                                   lookupBody: string -> Option<Body>)
    requires op.requestBody.Some?
    requires Parameters.EffectiveParameters(op, shared, lookupParam, lookupBody).Ok?
    ensures Consumes(op, lookupBody).Ok? && |Consumes(op, lookupBody).value| > 0
    ensures var ps := Parameters.EffectiveParameters(op, shared, lookupParam, lookupBody).value;
      var content := ResolveBody(op.requestBody.value, lookupBody).value.content;
      BodyParameter(ps).Some? && BodyParameter(ps).value.name == "body" &&
      Get(content, Consumes(op, lookupBody).value[0]) == Some(MediaType(BodyParameter(ps).value.schema))
  {
    Parameters.EffectiveParametersShape(op, shared, lookupParam, lookupBody);
    var ps := Parameters.EffectiveParameters(op, shared, lookupParam, lookupBody).value;
    var content := ResolveBody(op.requestBody.value, lookupBody).value.content;
    assert ps[|ps| - 1].location == "body";
    assert BodyParameter(ps) == Some(ps[|ps| - 1]);
    assert Consumes(op, lookupBody).value[0] == content[0].0;
  }
}
