/** The parts of an OpenAPI 3 document that the documentation generator
    reads while shaping an operation, as immutable values.  Each JavaScript
    object becomes a datatype; an object used as a dictionary becomes an
    ordered list of key/value pairs (see module Assoc); an undefined property
    becomes `None`, and a missing list the empty list. */
module Document {
  import opened Optional

  /** A JSON value: enum literals and sampled example values. */
  datatype Json =
    | JNull
    | JBool(b: bool)
    | JNumber(n: int)
    | JString(s: string)
    | JArray(elems: seq<Json>)
    | JObject(fields: seq<(string, Json)>)

  /** The fields of a schema object that shape a parameter's display type. */
  datatype Schema = Schema(typ: Option<string>, ref: Option<string>, items: Option<Schema>)

  /** A parameter's `items` object (the OpenAPI 2 style that some documents keep). */
  datatype Items = Items(typ: Option<string>, enumValues: Option<seq<Json>>)

  /** A parameter object; `location` is its `in` field. */
  datatype Param = Param(
    name: string,
    location: string,
    typ: Option<string>,
    required: Option<bool>,
    description: Option<string>,
    schema: Option<Schema>,
    items: Option<Items>,
    enumValues: Option<seq<Json>>)

  /** An entry of a parameter list: inline, or a `$ref` to one. */
  datatype ParamOrRef = Inline(param: Param) | Ref(pointer: string)

  /** A media type object of a `content` map. */
  datatype MediaType = MediaType(schema: Option<Schema>)

  /** A request body or response: its `content` map from media type name. */
  datatype Body = Body(content: seq<(string, MediaType)>)

  /** A request body or response entry: inline, or a `$ref` to one. */
  datatype BodyOrRef = InlineBody(body: Body) | BodyRef(pointer: string)

  /** One security requirement: scheme name to its list of scopes, where a
      value that is not an array is `None`. */
  datatype Requirement = Requirement(schemes: seq<(string, Option<seq<string>>)>)

  /** An operation object. */
  datatype Operation = Operation(
    operationId: Option<string>,
    tags: Option<seq<string>>,
    parameters: seq<ParamOrRef>,
    requestBody: Option<BodyOrRef>,
    responses: seq<(string, BodyOrRef)>,
    security: Option<seq<Requirement>>)

  /** The value under one key of a path item: an operation, the shared
      `parameters` list, or anything else (`summary`, `servers`, `x-…`).
      Of anything else only the `operationId` and `tags` properties are
      kept, because the table of contents reads them from every key but
      `parameters`; a string or array value has neither. */
  datatype PathValue =
    | OperationValue(op: Operation)
    | SharedParameters(params: seq<ParamOrRef>)
    | OtherValue(operationId: Option<string>, tags: Option<seq<string>>)

  /** `value.operationId`, whatever kind of value sits under the key. */
  function OperationIdOf(v: PathValue): Option<string>
  {
    match v
    case OperationValue(op) => op.operationId
    case SharedParameters(_) => None
    case OtherValue(id, _) => id
  }

  /** `value.tags`, whatever kind of value sits under the key. */
  function TagsOf(v: PathValue): Option<seq<string>>
  {
    match v
    case OperationValue(op) => op.tags
    case SharedParameters(_) => None
    case OtherValue(_, tags) => tags
  }

  /** Why shaping an operation cannot go on. */
  datatype Error =
    | UnresolvedReference(pointer: string)
    | EmptyBodyContent

  datatype Result<+T> = Ok(value: T) | Err(error: Error)

  /** Resolves a request body or response one level through its `$ref`,
      using the JSON-pointer lookup `lookup`. */
  function ResolveBody(b: BodyOrRef, lookup: string -> Option<Body>): (r: Result<Body>)
    ensures b.InlineBody? ==> r == Ok(b.body)
    ensures b.BodyRef? ==> (r.Ok? <==> lookup(b.pointer).Some?)
    ensures b.BodyRef? && r.Ok? ==> r.value == lookup(b.pointer).value
  {
    match b
    case InlineBody(body) => Ok(body)
    case BodyRef(p) =>
      match lookup(p)
      case Some(body) => Ok(body)
      case None => Err(UnresolvedReference(p))
  }
}
