/** The parameter list of one operation: path-level ("shared") parameters
    and the operation's own, each resolved one level through `$ref`, with
    shared parameters that the operation overrides removed, and a synthetic
    `body` parameter standing for a request body. */
module Parameters {
  import opened Optional
  import opened Assoc
  import opened Document
  import opened Toc

  /** Resolves every entry of a parameter list one level through the
      JSON-pointer lookup `lookup`; fails on the first reference that does
      not resolve. */
  function ResolveAll(ps: seq<ParamOrRef>, lookup: string -> Option<Param>): (r: Result<seq<Param>>)
    ensures r.Err? <==> exists i :: 0 <= i < |ps| && ps[i].Ref? && lookup(ps[i].pointer).None?
    ensures r.Ok? ==> |r.value| == |ps|
    ensures r.Ok? ==> forall i :: 0 <= i < |ps| ==>
      (ps[i].Inline? ==> r.value[i] == ps[i].param) &&
      (ps[i].Ref? ==> lookup(ps[i].pointer) == Some(r.value[i]))
  {
    if |ps| == 0 then Ok([])
    else
      var head := match ps[0]
        case Inline(p) => Ok(p)
        case Ref(ptr) => if lookup(ptr).Some? then Ok(lookup(ptr).value) else Err(UnresolvedReference(ptr));
      match head
      case Err(e) => Err(e)
      case Ok(p) =>
        match ResolveAll(ps[1..], lookup)
        case Err(e) =>
          assert forall i :: 1 <= i < |ps| ==> ps[i] == ps[1..][i - 1];
          Err(e)
        case Ok(rest) =>
          assert forall i :: 1 <= i < |ps| ==> ps[i] == ps[1..][i - 1];
          Ok([p] + rest)
  }

  /** Two parameters describe the same slot: equal `name` and equal `in`. */
  predicate SameSlot(a: Param, b: Param)
  {
    a.name == b.name && a.location == b.location
  }

  /** Some operation parameter takes the slot of `p`. */
  predicate Overridden(p: Param, ops: seq<Param>)
  {
    exists q :: q in ops && SameSlot(q, p)
  }

  /** The shared parameters no operation parameter overrides, in order. */
  function Survivors(shared: seq<Param>, ops: seq<Param>): (s: seq<Param>)
    ensures |s| <= |shared|
  {
    if |shared| == 0 then []
    else if Overridden(shared[0], ops) then Survivors(shared[1..], ops)
    else [shared[0]] + Survivors(shared[1..], ops)
  }

  /** A shared parameter survives exactly when no operation parameter has
      its name and location. */
  lemma {:induction false} SurvivorsIff(shared: seq<Param>, ops: seq<Param>, p: Param)
    ensures p in Survivors(shared, ops) <==> p in shared && !Overridden(p, ops)
    decreases |shared|
  {
    if |shared| > 0 {
      SurvivorsIff(shared[1..], ops, p);
      assert shared == [shared[0]] + shared[1..];
    }
  }

  /** Survivors keep their relative order: filtering distributes over
      concatenation. */
  lemma {:induction false} SurvivorsAppend(a: seq<Param>, b: seq<Param>, ops: seq<Param>)
    ensures Survivors(a + b, ops) == Survivors(a, ops) + Survivors(b, ops)
    decreases |a|
  {
    if |a| > 0 {
      SurvivorsAppend(a[1..], b, ops);
      assert (a + b)[1..] == a[1..] + b;
      assert (a + b)[0] == a[0];
    } else {
      assert a + b == b;
    }
  }

  /** Each shared parameter is kept as often as it occurs, or dropped entirely. */
  lemma {:induction false} SurvivorsCount(shared: seq<Param>, ops: seq<Param>, p: Param)
    ensures multiset(Survivors(shared, ops))[p] == if Overridden(p, ops) then 0 else multiset(shared)[p]
    decreases |shared|
  {
    if |shared| > 0 {
      SurvivorsCount(shared[1..], ops, p);
      assert shared == [shared[0]] + shared[1..];
    }
  }

  /** The shared parameters followed by the operation's own. */
  function Merge(shared: seq<Param>, ops: seq<Param>): seq<Param>
  {
    Survivors(shared, ops) + ops
  }

  /** Override precedence: the merged list is the surviving shared
      parameters, none of which shares a slot with an operation parameter,
      followed by every operation parameter in order; a parameter is in it
      exactly when it is an operation parameter or a shared one that is not
      overridden. */
  lemma MergeShape(shared: seq<Param>, ops: seq<Param>)
    ensures var m := Merge(shared, ops); var k := |Survivors(shared, ops)|;
      |m| == k + |ops| && m[k..] == ops &&
      (forall i :: 0 <= i < k ==> m[i] in shared && !Overridden(m[i], ops)) &&
      (forall p :: p in m <==> p in ops || (p in shared && !Overridden(p, ops)))
  {
    var s := Survivors(shared, ops);
    var m := Merge(shared, ops);
    assert m[|s|..] == ops;
    forall p
      ensures p in m <==> p in ops || (p in shared && !Overridden(p, ops))
    {
      SurvivorsIff(shared, ops, p);
    }
    forall i | 0 <= i < |s|
      ensures m[i] in shared && !Overridden(m[i], ops)
    {
      assert m[i] == s[i];
      SurvivorsIff(shared, ops, s[i]);
    }
  }

  /** Without operation parameters every shared parameter is kept. */
  lemma {:induction false} MergeWithoutOperationParameters(shared: seq<Param>)
    ensures Merge(shared, []) == shared
    decreases |shared|
  {
    if |shared| > 0 {
      MergeWithoutOperationParameters(shared[1..]);
      assert !Overridden(shared[0], []);
      assert shared == [shared[0]] + shared[1..];
    }
  }

  /** The synthetic version-2-style parameter that stands for a request
      body: schema of the first content type. */
  function BodyParam(content: seq<(string, MediaType)>): (p: Param)
    requires |content| > 0
    ensures p.name == "body" && p.location == "body"
    ensures p.typ == Some("object") && p.required == Some(true)
    ensures p.schema == content[0].1.schema
  {
    Param("body", "body", Some("object"), Some(true), Some("No description"), content[0].1.schema, None, None)
  }

  /** The request body of an operation, resolved one level through `$ref`. */
  function RequestBody(op: Operation, lookupBody: string -> Option<Body>): (r: Result<Option<Body>>)
    ensures op.requestBody.None? ==> r == Ok(None)
    ensures op.requestBody.Some? ==> match ResolveBody(op.requestBody.value, lookupBody)
      case Ok(b) => r == Ok(Some(b))
      case Err(e) => r == Err(e)
  {
    match op.requestBody
    case None => Ok(None)
    case Some(rb) =>
      match ResolveBody(rb, lookupBody)
      case Ok(b) => Ok(Some(b))
      case Err(e) => Err(e)
  }

  /** `openapi.paths[path].parameters || []`: the shared parameters come
      from the path item's `parameters` key, and there are none without it. */
  function SharedOf(item: PathItem): (ps: seq<ParamOrRef>)
    ensures Get(item, SharedKey).None? ==> ps == []
    ensures Get(item, SharedKey).Some? && Get(item, SharedKey).value.SharedParameters? ==>
      ps == Get(item, SharedKey).value.params
    ensures forall x :: x in ps ==>
      exists params :: (SharedKey, SharedParameters(params)) in item && x in params
  {
    var v := Get(item, SharedKey);
    if v.Some? && v.value.SharedParameters? then
      assert (SharedKey, SharedParameters(v.value.params)) in item;
      v.value.params
    else []
  }

  /** The parameter list of one operation. Fails when a `$ref` does not
      resolve or when the request body has no content type to take the
      schema from. */
  function EffectiveParameters(op: Operation, shared: seq<ParamOrRef>,
                               lookupParam: string -> Option<Param>,
                               lookupBody: string -> Option<Body>): Result<seq<Param>>
  {
    match RequestBody(op, lookupBody)
    case Err(e) => Err(e)
    case Ok(body) =>
      match ResolveAll(shared, lookupParam)
      case Err(e) => Err(e)
      case Ok(sp) =>
        match ResolveAll(op.parameters, lookupParam)
        case Err(e) => Err(e)
        case Ok(opp) =>
          match body
          case None => Ok(Merge(sp, opp))
          case Some(b) =>
            if |b.content| == 0 then Err(EmptyBodyContent)
            else Ok(Merge(sp, opp) + [BodyParam(b.content)])
  }

  /** The parameter list succeeds exactly when the request body, every
      shared and every operation reference resolve and a body has a content
      type. Then it is the merge of the resolved lists, followed, when there
      is a request body, by exactly one more parameter named `body` in
      `body`, required, with the first content type's schema. */
  lemma EffectiveParametersShape(op: Operation, shared: seq<ParamOrRef>,
                                 lookupParam: string -> Option<Param>,
                                 lookupBody: string -> Option<Body>)
    ensures var r := EffectiveParameters(op, shared, lookupParam, lookupBody);
      r.Ok? <==> RequestBody(op, lookupBody).Ok? && ResolveAll(shared, lookupParam).Ok? &&
                 ResolveAll(op.parameters, lookupParam).Ok? &&
                 (op.requestBody.Some? ==> |RequestBody(op, lookupBody).value.value.content| > 0)
    ensures var r := EffectiveParameters(op, shared, lookupParam, lookupBody);
      r.Ok? ==>
        var merged := Merge(ResolveAll(shared, lookupParam).value, ResolveAll(op.parameters, lookupParam).value);
        if op.requestBody.None? then r.value == merged
        else
          var b := RequestBody(op, lookupBody).value.value;
          |r.value| == |merged| + 1 && r.value[..|merged|] == merged &&
          r.value[|merged|].name == "body" && r.value[|merged|].location == "body" &&
          r.value[|merged|].required == Some(true) &&
          r.value[|merged|].schema == b.content[0].1.schema
  {
    var r := EffectiveParameters(op, shared, lookupParam, lookupBody);
    if r.Ok? && op.requestBody.Some? {
      var merged := Merge(ResolveAll(shared, lookupParam).value, ResolveAll(op.parameters, lookupParam).value);
      assert r.value[..|merged|] == merged;
    }
  }

  /** The parameter list of the operation `op` of the path item `item`,
      with the item's own shared parameters. */
  function OperationParameters(item: PathItem, op: Operation,
                               lookupParam: string -> Option<Param>,
                               lookupBody: string -> Option<Body>): Result<seq<Param>>
  {
    EffectiveParameters(op, SharedOf(item), lookupParam, lookupBody)
  }

  /** A path item without a `parameters` key contributes no shared
      parameters to its operations. */
  lemma PathWithoutSharedParameters(item: PathItem, op: Operation,
                                    lookupParam: string -> Option<Param>,
                                    lookupBody: string -> Option<Body>)
    requires Get(item, SharedKey).None?
    ensures OperationParameters(item, op, lookupParam, lookupBody) == EffectiveParameters(op, [], lookupParam, lookupBody)
  {
  }

  /** The parameters under the path item's `parameters` key reach each of
      its operations: one the operation does not override is in the
      operation's list, and so is each of the operation's own. */
  lemma PathSharedParametersKept(item: PathItem, params: seq<ParamOrRef>, op: Operation,
                                 lookupParam: string -> Option<Param>,
                                 lookupBody: string -> Option<Body>, p: Param)
    requires Get(item, SharedKey) == Some(SharedParameters(params))
    ensures (OperationParameters(item, op, lookupParam, lookupBody).Ok? &&
             ResolveAll(params, lookupParam).Ok? && ResolveAll(op.parameters, lookupParam).Ok? &&
             p in ResolveAll(params, lookupParam).value && !Overridden(p, ResolveAll(op.parameters, lookupParam).value)) ==>
      p in OperationParameters(item, op, lookupParam, lookupBody).value
    ensures (OperationParameters(item, op, lookupParam, lookupBody).Ok? &&
             ResolveAll(op.parameters, lookupParam).Ok? && p in ResolveAll(op.parameters, lookupParam).value) ==>
      p in OperationParameters(item, op, lookupParam, lookupBody).value
  {
    EffectiveParametersShape(op, params, lookupParam, lookupBody);
    if OperationParameters(item, op, lookupParam, lookupBody).Ok? {
      var sp := ResolveAll(params, lookupParam).value;
      var opp := ResolveAll(op.parameters, lookupParam).value;
      var r := OperationParameters(item, op, lookupParam, lookupBody).value;
      var merged := Merge(sp, opp);
      MergeShape(sp, opp);
      assert merged == r[..|merged|];
      if p in merged {
        var i :| 0 <= i < |merged| && merged[i] == p;
        assert r[i] == p;
      }
    }
  }

  /* ---- The merge as openapi3.js writes it --------------------------------

     openapi3.js marks an overridden shared parameter by setting a flag on
     the shared parameter object itself, and that object belongs to the
     path item, so the mark outlives the operation that set it.  Later
     operations of the same path then lose the shared parameter even when
     they do not override it.  `flags` below is the mark of each shared
     parameter, in the order of the path item's list. */

  /** The shared parameters whose mark is not set. */
  function Unmarked(shared: seq<Param>, flags: seq<bool>): (s: seq<Param>)
    requires |flags| == |shared|
    ensures |s| <= |shared|
  {
    if |shared| == 0 then []
    else if flags[0] then Unmarked(shared[1..], flags[1..])
    else [shared[0]] + Unmarked(shared[1..], flags[1..])
  }

  /** One operation as written: only when both lists are non-empty are the
      overridden shared parameters marked (marks accumulate) and the marked
      ones dropped. Returns the parameter list and the marks afterwards. */
  function MergeAsWritten(shared: seq<Param>, flags: seq<bool>, ops: seq<Param>): (r: (seq<Param>, seq<bool>))
    requires |flags| == |shared|
    ensures |r.1| == |shared|
  {
    if |shared| > 0 && |ops| > 0 then
      var marks := seq(|shared|, i requires 0 <= i < |shared| => flags[i] || Overridden(shared[i], ops));
      (Unmarked(shared, marks) + ops, marks)
    else (shared + ops, flags)
  }

  /** The operations of one path, in the order they are documented, as
      written: marks carry over from one operation to the next. */
  function MergePathAsWritten(shared: seq<Param>, flags: seq<bool>, opLists: seq<seq<Param>>): (r: seq<seq<Param>>)
    requires |flags| == |shared|
    ensures |r| == |opLists|
    decreases |opLists|
  {
    if |opLists| == 0 then []
    else
      var step := MergeAsWritten(shared, flags, opLists[0]);
      [step.0] + MergePathAsWritten(shared, step.1, opLists[1..])
  }

  /** The intended behaviour: every operation of the path gets its own merge. */
  function MergePath(shared: seq<Param>, opLists: seq<seq<Param>>): (r: seq<seq<Param>>)
    ensures |r| == |opLists|
    ensures forall i :: 0 <= i < |opLists| ==> r[i] == Merge(shared, opLists[i])
  {
    seq(|opLists|, i requires 0 <= i < |opLists| => Merge(shared, opLists[i]))
  }

  /** Under the intended merge each operation of a path keeps exactly the
      shared parameters it does not override itself, whatever the other
      operations declare, besides its own parameters. */
  lemma MergePathKeeps(shared: seq<Param>, opLists: seq<seq<Param>>, i: nat, p: Param)
    requires i < |opLists|
    ensures p in MergePath(shared, opLists)[i] <==>
      p in opLists[i] || (p in shared && !Overridden(p, opLists[i]))
  {
    MergeShape(shared, opLists[i]);
  }

  /** A parameter kept by `Unmarked` sits at some unmarked position. */
  lemma {:induction false} UnmarkedOnlyUnmarked(shared: seq<Param>, marks: seq<bool>, p: Param)
    requires |marks| == |shared|
    ensures p in Unmarked(shared, marks) ==>
      exists i :: 0 <= i < |shared| && shared[i] == p && !marks[i]
    decreases |shared|
  {
    if |shared| > 0 && !(shared[0] == p && !marks[0]) {
      UnmarkedOnlyUnmarked(shared[1..], marks[1..], p);
      if p in Unmarked(shared[1..], marks[1..]) {
        var i :| 0 <= i < |shared[1..]| && shared[1..][i] == p && !marks[1..][i];
        assert shared[i + 1] == p && !marks[i + 1];
      }
    }
  }

  /** A parameter of an operation overrides its own slot. */
  lemma OwnSlot(p: Param, ops: seq<Param>)
    ensures p in ops ==> Overridden(p, ops)
  {
    if p in ops {
      assert SameSlot(p, p);
    }
  }

  lemma {:induction false} UnmarkedIsSurvivors(shared: seq<Param>, marks: seq<bool>, ops: seq<Param>)
    requires |marks| == |shared|
    requires forall i :: 0 <= i < |shared| ==> marks[i] == Overridden(shared[i], ops)
    ensures Unmarked(shared, marks) == Survivors(shared, ops)
    decreases |shared|
  {
    if |shared| > 0 {
      UnmarkedIsSurvivors(shared[1..], marks[1..], ops);
    }
  }

  /** With no marks set beforehand, as for the first operation of a path,
      the merge as written is the intended one and marks exactly the
      overridden shared parameters. */
  lemma FirstOperationAgrees(shared: seq<Param>, ops: seq<Param>)
    ensures var r := MergeAsWritten(shared, seq(|shared|, i => false), ops);
      r.0 == Merge(shared, ops) &&
      forall i :: 0 <= i < |shared| ==> r.1[i] == (|ops| > 0 && Overridden(shared[i], ops))
  {
    var flags := seq(|shared|, i => false);
    if |shared| > 0 && |ops| > 0 {
      var marks := MergeAsWritten(shared, flags, ops).1;
      UnmarkedIsSurvivors(shared, marks, ops);
    } else if |ops| == 0 {
      MergeWithoutOperationParameters(shared);
    }
  }

  /** The marks as they stand before operation `j` of the path. */
  function MarksBefore(shared: seq<Param>, flags: seq<bool>, opLists: seq<seq<Param>>, j: nat): (m: seq<bool>)
    requires |flags| == |shared| && j <= |opLists|
    ensures |m| == |shared|
    decreases j
  {
    if j == 0 then flags
    else MarksBefore(shared, MergeAsWritten(shared, flags, opLists[0]).1, opLists[1..], j - 1)
  }

  /** Operation `j` of a path is merged from the marks left before it. */
  lemma {:induction false} StepAt(shared: seq<Param>, flags: seq<bool>, opLists: seq<seq<Param>>, j: nat)
    requires |flags| == |shared| && j < |opLists|
    ensures MergePathAsWritten(shared, flags, opLists)[j] ==
      MergeAsWritten(shared, MarksBefore(shared, flags, opLists, j), opLists[j]).0
    decreases j
  {
    if j > 0 {
      var next := MergeAsWritten(shared, flags, opLists[0]).1;
      StepAt(shared, next, opLists[1..], j - 1);
      assert opLists[1..][j - 1] == opLists[j];
    }
  }

  /** A mark, once set, is never cleared. */
  lemma {:induction false} MarksStay(shared: seq<Param>, flags: seq<bool>, opLists: seq<seq<Param>>, j: nat, m: nat)
    requires |flags| == |shared| && j <= |opLists| && m < |shared|
    requires flags[m]
    ensures MarksBefore(shared, flags, opLists, j)[m]
    decreases j
  {
    if j > 0 {
      MarksStay(shared, MergeAsWritten(shared, flags, opLists[0]).1, opLists[1..], j - 1, m);
    }
  }

  /** Once operation `i` overrides a shared parameter, every copy of it is
      marked before each later operation. */
  lemma {:induction false} OverriddenMarkedLater(shared: seq<Param>, flags: seq<bool>, opLists: seq<seq<Param>>,
                                                 i: nat, j: nat, k: nat)
    requires |flags| == |shared| && k < |shared| && i < j <= |opLists|
    requires Overridden(shared[k], opLists[i])
    ensures forall m :: 0 <= m < |shared| && shared[m] == shared[k] ==> MarksBefore(shared, flags, opLists, j)[m]
    decreases i
  {
    var next := MergeAsWritten(shared, flags, opLists[0]).1;
    if i == 0 {
      OverriddenMarked(shared, flags, opLists[0], k);
      forall m | 0 <= m < |shared| && shared[m] == shared[k]
        ensures MarksBefore(shared, flags, opLists, j)[m]
      {
        MarksStay(shared, next, opLists[1..], j - 1, m);
      }
    } else {
      assert opLists[1..][i - 1] == opLists[i];
      OverriddenMarkedLater(shared, next, opLists[1..], i - 1, j - 1, k);
    }
  }

  /** As written, a shared parameter overridden by one operation of a path
      is lost by every later operation of that path that has parameters but
      does not override it, whatever marks the path carried before; the
      intended merge keeps it there. */
  lemma MarkOutlivesOperation(shared: seq<Param>, flags: seq<bool>, opLists: seq<seq<Param>>,
                              i: nat, j: nat, k: nat)
    requires |flags| == |shared| && k < |shared| && i < j < |opLists|
    requires Overridden(shared[k], opLists[i]) && !Overridden(shared[k], opLists[j])
    requires |opLists[j]| > 0
    ensures shared[k] !in MergePathAsWritten(shared, flags, opLists)[j]
    ensures shared[k] in MergePath(shared, opLists)[j]
  {
    StepAt(shared, flags, opLists, j);
    OverriddenMarkedLater(shared, flags, opLists, i, j, k);
    MarkedLost(shared, MarksBefore(shared, flags, opLists, j), opLists[j], shared[k]);
    MergePathKeeps(shared, opLists, j, shared[k]);
  }

  /** An operation that overrides a shared parameter marks every copy of it. */
  lemma OverriddenMarked(shared: seq<Param>, flags: seq<bool>, ops: seq<Param>, k: nat)
    requires |flags| == |shared| && k < |shared|
    requires Overridden(shared[k], ops)
    ensures forall i :: 0 <= i < |shared| && shared[i] == shared[k] ==> MergeAsWritten(shared, flags, ops).1[i]
  {
  }

  /** A parameter marked wherever it stands is missing from an operation
      that has parameters and does not declare it. */
  lemma MarkedLost(shared: seq<Param>, marks: seq<bool>, ops: seq<Param>, p: Param)
    requires |marks| == |shared| && |ops| > 0
    requires forall i :: 0 <= i < |shared| && shared[i] == p ==> marks[i]
    requires !Overridden(p, ops)
    ensures p !in MergeAsWritten(shared, marks, ops).0
  {
    if |shared| > 0 {
      var marks' := MergeAsWritten(shared, marks, ops).1;
      assert MergeAsWritten(shared, marks, ops).0 == Unmarked(shared, marks') + ops;
      UnmarkedOnlyUnmarked(shared, marks', p);
    }
    OwnSlot(p, ops);
  }

  /** A path with shared `id` in `query`; its first operation overrides
      `id`, its second only declares `limit`. As written, the second
      operation loses `id`; the intended merge keeps it. */
  lemma MarkOutlivesOperationExample()
    ensures var id := Param("id", "query", None, None, None, None, None, None);
      var limit := Param("limit", "query", None, None, None, None, None, None);
      var opLists := [[id], [limit]];
      MergePathAsWritten([id], [false], opLists)[1] == [limit] &&
      MergePath([id], opLists)[1] == [id, limit]
  {
    var id := Param("id", "query", None, None, None, None, None, None);
    var limit := Param("limit", "query", None, None, None, None, None, None);
    assert id in [id] && SameSlot(id, id);
    assert !Overridden(id, [limit]);
    var marks := MergeAsWritten([id], [false], [id]).1;
    assert marks == [true];
    assert MergeAsWritten([id], marks, [limit]).0 == [limit];
  }
}
