/** The authentication summary of an operation: the security requirements
    in force, and the string listing each requirement's scheme type with its
    scopes. */
module Security {
  import opened Optional
  import opened Strings
  import opened Document

  /** The part of a security scheme definition the summary shows. */
  datatype SecurityScheme = SecurityScheme(typ: Option<string>)

  /** What the authentication section shows. */
  datatype Auth =
    | NoAuth
    | Authenticated(summary: string, definitions: seq<SecurityScheme>)

  /** The operation's `security` when it has one, even an empty list (an
      array is truthy), otherwise the document's, otherwise none. */
  function EffectiveSecurity(op: Operation, docSecurity: Option<seq<Requirement>>): (reqs: seq<Requirement>)
    ensures op.security.Some? ==> reqs == op.security.value
    ensures op.security.None? && docSecurity.Some? ==> reqs == docSecurity.value
    ensures op.security.None? && docSecurity.None? ==> reqs == []
  {
    match op.security
    case Some(s) => s
    case None => GetOr(docSecurity, [])
  }

  /** The first key of a requirement; `undefined` when it has none. */
  function SchemeName(req: Requirement): string
  {
    if |req.schemes| == 0 then "undefined" else req.schemes[0].0
  }

  /** The JSON pointer the scheme definition is looked up at. */
  function SchemeLink(req: Requirement): string
  {
    "#/components/securitySchemes/" + SchemeName(req)
  }

  /** The scopes listed under the first key, when that value is an array. */
  function Scopes(req: Requirement): Option<seq<string>>
  {
    if |req.schemes| == 0 then None else req.schemes[0].1
  }

  /** Every scope followed by a space. */
  function ScopeList(scopes: seq<string>): (s: string)
    decreases |scopes|
  {
    if |scopes| == 0 then "" else ScopeList(scopes[..|scopes| - 1]) + scopes[|scopes| - 1] + " "
  }

  /** ` ( Scopes: s1 s2 )` for a non-empty scope array, nothing otherwise. */
  function ScopeSuffix(scopes: Option<seq<string>>): string
  {
    if scopes.Some? && |scopes.value| > 0 then " ( Scopes: " + ScopeList(scopes.value) + ")" else ""
  }

  /** The scopes appear separated by single spaces, with one more space
      before the closing parenthesis. */
  lemma {:induction false} ScopeListIsJoin(scopes: seq<string>)
    requires |scopes| > 0
    ensures ScopeList(scopes) == Join(scopes, " ") + " "
    decreases |scopes|
  {
    var init, last := scopes[..|scopes| - 1], scopes[|scopes| - 1];
    assert scopes == init + [last];
    JoinSnoc(init, last, " ");
    if |init| > 0 {
      ScopeListIsJoin(init);
    }
  }

  /** The type of a scheme as string concatenation shows it. */
  function TypeText(def: SecurityScheme): string
  {
    GetOr(def.typ, "undefined")
  }

  /** What one requirement contributes: its scheme's type and scopes. */
  function Item(def: SecurityScheme, req: Requirement): string
  {
    TypeText(def) + ScopeSuffix(Scopes(req))
  }

  /** `list += (list ? ', ' : '') + item`. */
  function Append(list: string, item: string): string
  {
    list + (if list != "" then ", " else "") + item
  }

  /** The summary after the first `n` items. */
  function SummaryUpTo(items: seq<string>, n: nat): string
    requires n <= |items|
  {
    if n == 0 then "" else Append(SummaryUpTo(items, n - 1), items[n - 1])
  }

  /** The summary string, built item by item. */
  function Summary(items: seq<string>): string
  {
    SummaryUpTo(items, |items|)
  }

  /** The scheme definitions of the requirements, in order; fails when a
      scheme is not defined. */
  function Definitions(reqs: seq<Requirement>, lookup: string -> Option<SecurityScheme>): (r: Result<seq<SecurityScheme>>)
    ensures r.Err? <==> exists i :: 0 <= i < |reqs| && lookup(SchemeLink(reqs[i])).None?
    ensures r.Ok? ==> |r.value| == |reqs|
    ensures r.Ok? ==> forall i :: 0 <= i < |reqs| ==> lookup(SchemeLink(reqs[i])) == Some(r.value[i])
  {
    if |reqs| == 0 then Ok([])
    else
      assert forall i :: 1 <= i < |reqs| ==> reqs[i] == reqs[1..][i - 1];
      match lookup(SchemeLink(reqs[0]))
      case None => Err(UnresolvedReference(SchemeLink(reqs[0])))
      case Some(def) =>
        match Definitions(reqs[1..], lookup)
        case Err(e) => Err(e)
        case Ok(defs) => Ok([def] + defs)
  }

  /** The items of the requirements under the definitions found. */
  function Items(defs: seq<SecurityScheme>, reqs: seq<Requirement>): (items: seq<string>)
    requires |defs| == |reqs|
    ensures |items| == |reqs|
    ensures forall i :: 0 <= i < |reqs| ==> items[i] == Item(defs[i], reqs[i])
  {
    seq(|reqs|, i requires 0 <= i < |reqs| => Item(defs[i], reqs[i]))
  }

  /** The authentication section: none for an empty requirement list,
      otherwise the summary of the requirements and their definitions. */
  function Authentication(op: Operation, docSecurity: Option<seq<Requirement>>,
                          lookup: string -> Option<SecurityScheme>): Result<Auth>
  {
    var reqs := EffectiveSecurity(op, docSecurity);
    if |reqs| == 0 then Ok(NoAuth)
    else
      match Definitions(reqs, lookup)
      case Err(e) => Err(e)
      case Ok(defs) => Ok(Authenticated(Summary(Items(defs, reqs)), defs))
  }

  /** The no-authentication branch is taken exactly when no requirement is
      in force; otherwise the summary fails exactly when a scheme is
      missing, and lists one definition per requirement. */
  lemma AuthenticationShape(op: Operation, docSecurity: Option<seq<Requirement>>,
                            lookup: string -> Option<SecurityScheme>)
    ensures var reqs := EffectiveSecurity(op, docSecurity);
      Authentication(op, docSecurity, lookup) == Ok(NoAuth) <==> |reqs| == 0
    ensures var reqs := EffectiveSecurity(op, docSecurity);
      Authentication(op, docSecurity, lookup).Err? <==>
        |reqs| > 0 && exists i :: 0 <= i < |reqs| && lookup(SchemeLink(reqs[i])).None?
    ensures var a := Authentication(op, docSecurity, lookup);
      a.Ok? && a.value.Authenticated? ==> |a.value.definitions| == |EffectiveSecurity(op, docSecurity)|
  {
  }

  /** A join whose first part is not empty is not empty. */
  lemma JoinNonEmpty(parts: seq<string>, sep: string)
    requires |parts| > 0 && parts[0] != ""
    ensures Join(parts, sep) != ""
  {
    if |parts| > 1 {
      assert |Join(parts, sep)| >= |parts[0]|;
    }
  }

  lemma {:induction false} SummaryUpToIsJoin(items: seq<string>, n: nat)
    requires n <= |items|
    requires forall i :: 0 <= i < |items| ==> items[i] != ""
    ensures SummaryUpTo(items, n) == Join(items[..n], ", ")
  {
    if n > 0 {
      SummaryUpToIsJoin(items, n - 1);
      assert items[..n] == items[..n - 1] + [items[n - 1]];
      JoinSnoc(items[..n - 1], items[n - 1], ", ");
      if n > 1 {
        JoinNonEmpty(items[..n - 1], ", ");
      }
    }
  }

  /** When no item is empty, the summary is the items joined by `, `. */
  lemma SummaryIsJoin(items: seq<string>)
    requires forall i :: 0 <= i < |items| ==> items[i] != ""
    ensures Summary(items) == Join(items, ", ")
  {
    SummaryUpToIsJoin(items, |items|);
    assert items[..|items|] == items;
  }

  /** Every scheme with a non-empty type contributes a non-empty item, so
      the summary then lists the items separated by `, `. */
  lemma AuthenticatedSummary(op: Operation, docSecurity: Option<seq<Requirement>>,
                             lookup: string -> Option<SecurityScheme>)
    requires Authentication(op, docSecurity, lookup).Ok?
    requires Authentication(op, docSecurity, lookup).value.Authenticated?
    requires forall d :: d in Authentication(op, docSecurity, lookup).value.definitions ==> TypeText(d) != ""
    ensures var a := Authentication(op, docSecurity, lookup).value;
      a.summary == Join(Items(a.definitions, EffectiveSecurity(op, docSecurity)), ", ")
  {
    var a := Authentication(op, docSecurity, lookup).value;
    var items := Items(a.definitions, EffectiveSecurity(op, docSecurity));
    forall i | 0 <= i < |items|
      ensures items[i] != ""
    {
      assert a.definitions[i] in a.definitions;
    }
    SummaryIsJoin(items);
  }

  /** The operation's own `security` decides alone when it has one: an
      empty list switches authentication off whatever the document says.
      An operation without one is shown as if it declared the document's
      list. */
  lemma OperationSecurityWins(op: Operation, docSecurity: Option<seq<Requirement>>,
                              lookup: string -> Option<SecurityScheme>)
    ensures op.security == Some([]) ==> Authentication(op, docSecurity, lookup) == Ok(NoAuth)
    ensures op.security.Some? ==> Authentication(op, docSecurity, lookup) == Authentication(op, None, lookup)
    ensures op.security.None? ==>
      Authentication(op, docSecurity, lookup) == Authentication(op.(security := docSecurity), None, lookup)
  {
  }
}
