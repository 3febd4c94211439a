/** The display type (`safeType`) of a parameter and the default of its
    `required` flag, computed for every parameter of an operation. */
module SafeType {
  import opened Optional
  import opened Strings
  import opened Document

  /** `param.required ? param.required : false`. */
  function RequiredDefault(p: Param): (q: Param)
    ensures q.required.Some?
    ensures q.required.value <==> p.required == Some(true)
    ensures q == p.(required := q.required)
  {
    p.(required := Some(p.required == Some(true)))
  }

  /** Applying the default twice changes nothing more. */
  lemma RequiredDefaultIdempotent(p: Param)
    ensures RequiredDefault(RequiredDefault(p)) == RequiredDefault(p)
  {
  }

  /** The schema's `$ref`, when it is a non-empty string. */
  predicate SchemaRef(p: Param)
  {
    p.schema.Some? && Truthy(p.schema.value.ref)
  }

  /** The schema's `type`, when it is a non-empty string. */
  predicate SchemaType(p: Param)
  {
    p.schema.Some? && Truthy(p.schema.value.typ)
  }

  /** The type before any `[...]` suffix: a declared type other than
      `object` as is; otherwise the last segment of the schema's `$ref`,
      else the schema's type, else `object`. */
  function BaseType(p: Param): string
  {
    if Truthy(p.typ) && p.typ.value != "object" then p.typ.value
    else if SchemaRef(p) then LastSegment(p.schema.value.ref.value)
    else if SchemaType(p) then p.schema.value.typ.value
    else "object"
  }

  /** The element type shown in brackets for an array: `items.type`, else
      the last segment of `schema.items.$ref`. */
  function ElementType(p: Param): Option<string>
  {
    if p.items.Some? && Truthy(p.items.value.typ) then p.items.value.typ
    else if p.schema.Some? && p.schema.value.items.Some? && Truthy(p.schema.value.items.value.ref)
    then Some(LastSegment(p.schema.value.items.value.ref.value))
    else None
  }

  /** The display type: the base type, with `[element]` added when the base
      is exactly `array` and an element type is known. */
  function DisplayType(p: Param): string
  {
    var base := BaseType(p);
    if base == "array" && ElementType(p).Some? then base + "[" + ElementType(p).value + "]" else base
  }

  /** `param.safeType`, step by step as openapi3.js assigns it. */
  method ComputeSafeType(p: Param) returns (st: string)
    ensures st == DisplayType(p)
    ensures Truthy(p.typ) && p.typ.value != "object" && p.typ.value != "array" ==> st == p.typ.value
    ensures !Truthy(p.typ) && !SchemaRef(p) && !SchemaType(p) ==> st == "object"
  {
    st := if Truthy(p.typ) then p.typ.value else "object";
    if st == "object" {
      if p.schema.Some? && Truthy(p.schema.value.typ) {
        st := p.schema.value.typ.value;
      }
      if p.schema.Some? && Truthy(p.schema.value.ref) {
        st := LastSegment(p.schema.value.ref.value);
      }
    }
    assert st == BaseType(p);
    if st == "array" && p.items.Some? && Truthy(p.items.value.typ) {
      st := st + "[" + p.items.value.typ.value + "]";
    }
    if st == "array" && p.schema.Some? && p.schema.value.items.Some? && Truthy(p.schema.value.items.value.ref) {
      st := st + "[" + LastSegment(p.schema.value.items.value.ref.value) + "]";
    }
  }

  /** A schema `$ref` takes precedence over the schema's type whenever the
      declared type does not decide. */
  lemma RefBeatsSchemaType(p: Param)
    requires !Truthy(p.typ) || p.typ.value == "object"
    requires SchemaRef(p)
    ensures BaseType(p) == LastSegment(p.schema.value.ref.value)
    ensures '/' !in BaseType(p)
  {
  }

  /** The suffix is added at most once: a display type never holds two
      bracket pairs, because `array[x]` is no longer exactly `array`. */
  lemma SingleSuffix(p: Param)
    ensures DisplayType(p) == BaseType(p) ||
      (BaseType(p) == "array" && ElementType(p).Some? &&
       DisplayType(p) == "array[" + ElementType(p).value + "]")
  {
  }

  /** `items.type` is preferred to the schema's item `$ref`. */
  lemma ItemsTypeFirst(p: Param)
    requires BaseType(p) == "array"
    requires p.items.Some? && Truthy(p.items.value.typ)
    ensures DisplayType(p) == "array[" + p.items.value.typ.value + "]"
  {
  }

  /** The normalising loop over an operation's parameters: every parameter
      gets its `required` default, and its display type alongside. */
  method ShapeParameters(ps: seq<Param>) returns (qs: seq<Param>, types: seq<string>)
    ensures |qs| == |ps| && |types| == |ps|
    ensures forall i :: 0 <= i < |ps| ==> qs[i] == RequiredDefault(ps[i]) && types[i] == DisplayType(ps[i])
  {
    qs := [];
    types := [];
    var i := 0;
    while i < |ps|
      invariant 0 <= i <= |ps|
      invariant |qs| == i && |types| == i
      invariant forall j :: 0 <= j < i ==> qs[j] == RequiredDefault(ps[j]) && types[j] == DisplayType(ps[j])
    {
      var st := ComputeSafeType(ps[i]);
      qs := qs + [RequiredDefault(ps[i])];
      types := types + [st];
      i := i + 1;
    }
  }
}
