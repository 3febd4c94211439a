/** Text shaping around the generated document: the title line, the short
    and long parameter descriptions, the enumerated values listed for the
    parameters, and the final collapse of blank lines. */
module Text {
  import opened Optional
  import opened Strings
  import opened Trimming
  import opened Document

  /* ---- Title ------------------------------------------------------------ */

  /** `s.toLowerCase().startsWith('v')`. */
  predicate StartsWithV(s: string)
  {
    |s| > 0 && (s[0] == 'v' || s[0] == 'V')
  }

  /** The version as shown: kept when it starts with `v` or `V`, otherwise
      prefixed by `v`; `v?` when it is missing or empty. */
  function VersionText(version: Option<string>): (t: string)
    ensures StartsWithV(t)
    ensures Truthy(version) && StartsWithV(version.value) ==> t == version.value
    ensures Truthy(version) && !StartsWithV(version.value) ==> t == "v" + version.value
    ensures !Truthy(version) ==> t == "v?"
  {
    if Truthy(version) && StartsWithV(version.value) then version.value
    else "v" + (if Truthy(version) then version.value else "?")
  }

  /** `header.title`: the document title, a space, the version text. */
  function Title(title: string, version: Option<string>): string
  {
    title + " " + VersionText(version)
  }

  /** Formatting an already formatted version changes nothing. */
  lemma VersionTextIdempotent(version: Option<string>)
    ensures VersionText(Some(VersionText(version))) == VersionText(version)
  {
  }

  /** The version given can be read back from the version text: it is the
      text itself, or the text without its added `v`. */
  lemma VersionTextRecoverable(v: string)
    requires v != ""
    ensures VersionText(Some(v)) == v || VersionText(Some(v))[1..] == v
  {
    if !StartsWithV(v) {
      assert ("v" + v)[1..] == v;
    }
  }

  /* ---- Descriptions ----------------------------------------------------- */

  /** `param.shortDesc`: the first line of the description, or
      `No description` when there is none. */
  function ShortDesc(description: Option<string>): (d: string)
    ensures '\n' !in d
    ensures !Truthy(description) ==> d == "No description"
    ensures Truthy(description) ==> |d| <= |description.value| && d == description.value[..|d|]
    ensures Truthy(description) && |d| < |description.value| ==> description.value[|d|] == '\n'
  {
    if Truthy(description) then FirstLine(description.value) else "No description"
  }

  /** A description without a line break is shown whole. */
  lemma ShortDescWhole(description: string)
    requires description != "" && '\n' !in description
    ensures ShortDesc(Some(description)) == description
  {
  }

  /** The description spans more than one line once trimmed:
      `description.trim().split('\n').length > 1`. */
  predicate LongDescription(description: Option<string>)
  {
    Truthy(description) && |Split(Trim(description.value), "\n")| > 1
  }

  /** A description is long exactly when some line break in it has text
      on both sides. */
  lemma LongDescriptionIff(description: Option<string>)
    ensures LongDescription(description) <==> Truthy(description) && InnerLineBreak(description.value)
  {
    if Truthy(description) {
      SplitCharCount(Trim(description.value), '\n');
      TrimmedHasLineBreak(description.value);
    }
  }

  /** `longDescs`: some parameter has a long description. */
  predicate LongDescs(ps: seq<Param>)
  {
    exists i :: 0 <= i < |ps| && LongDescription(ps[i].description)
  }

  /** `longDescs` is set exactly when some parameter's description has a
      line break with text on both sides. */
  lemma LongDescsIff(ps: seq<Param>)
    ensures LongDescs(ps) <==>
      exists i :: 0 <= i < |ps| && Truthy(ps[i].description) && InnerLineBreak(ps[i].description.value)
  {
    forall i | 0 <= i < |ps|
      ensures LongDescription(ps[i].description) <==>
        Truthy(ps[i].description) && InnerLineBreak(ps[i].description.value)
    {
      LongDescriptionIff(ps[i].description);
    }
  }

  /* ---- Enumerated values ------------------------------------------------ */

  /** Each value paired with the parameter name. */
  function Named(name: string, values: seq<Json>): (r: seq<(string, Json)>)
    ensures |r| == |values|
    ensures forall i :: 0 <= i < |values| ==> r[i] == (name, values[i])
  {
    seq(|values|, i requires 0 <= i < |values| => (name, values[i]))
  }

  /** The values of `param.enum`, then those of `param.items.enum`. */
  function EnumValues(p: Param): seq<Json>
  {
    GetOr(p.enumValues, []) + (if p.items.Some? then GetOr(p.items.value.enumValues, []) else [])
  }

  /** `data.enums`: the name/value pairs of every parameter, parameter by
      parameter. */
  function Enums(ps: seq<Param>): (r: seq<(string, Json)>)
    decreases |ps|
  {
    if |ps| == 0 then [] else Enums(ps[..|ps| - 1]) + Named(ps[|ps| - 1].name, EnumValues(ps[|ps| - 1]))
  }

  /** A pair is listed exactly when some parameter of that name has the
      value in its own `enum` or in its `items.enum`. */
  lemma {:induction false} EnumsIff(ps: seq<Param>, name: string, v: Json)
    ensures (name, v) in Enums(ps) <==>
      exists i :: 0 <= i < |ps| && ps[i].name == name && v in EnumValues(ps[i])
    decreases |ps|
  {
    if |ps| > 0 {
      var init, last := ps[..|ps| - 1], ps[|ps| - 1];
      EnumsIff(init, name, v);
      assert forall i :: 0 <= i < |init| ==> init[i] == ps[i];
      var named := Named(last.name, EnumValues(last));
      if (name, v) in named {
        var k :| 0 <= k < |named| && named[k] == (name, v);
        assert EnumValues(last)[k] == v;
      }
      if name == last.name && v in EnumValues(last) {
        var k :| 0 <= k < |EnumValues(last)| && EnumValues(last)[k] == v;
        assert named[k] == (name, v);
      }
    }
  }

  /** One pair per value, none dropped and none added. */
  lemma {:induction false} EnumsLength(ps: seq<Param>)
    ensures |Enums(ps)| == TotalValues(ps)
    decreases |ps|
  {
    if |ps| > 0 {
      EnumsLength(ps[..|ps| - 1]);
    }
  }

  function TotalValues(ps: seq<Param>): nat
    decreases |ps|
  {
    if |ps| == 0 then 0 else TotalValues(ps[..|ps| - 1]) + |EnumValues(ps[|ps| - 1])|
  }

  /* ---- Blank lines ------------------------------------------------------ */

  const ThreeBreaks := "\n\n\n"
  const TwoBreaks := "\n\n"

  /** `content.split('\n\n\n').join('\n\n')`: one pass replacing each
      non-overlapping run of three line breaks, found left to right, by two. */
  function Collapse(s: string): string
  {
    Join(Split(s, ThreeBreaks), TwoBreaks)
  }

  /** Each replaced run shortens the text by exactly one line break. */
  lemma CollapseLength(s: string)
    ensures |Collapse(s)| == |s| - (|Split(s, ThreeBreaks)| - 1)
  {
    JoinSplit(s, ThreeBreaks);
    JoinSeparatorLength(Split(s, ThreeBreaks), ThreeBreaks, TwoBreaks);
  }

  /** Text without three line breaks in a row is left as it is. */
  lemma CollapseKeeps(s: string)
    requires forall i :: !OccursAt(s, ThreeBreaks, i)
    ensures Collapse(s) == s
  {
    SplitWithoutSeparator(s, ThreeBreaks);
  }

  /** The collapse is a single pass: four line breaks become three, which
      still holds a run of three. */
  lemma CollapseSinglePass()
    ensures Collapse("\n\n\n\n") == "\n\n\n"
    ensures OccursAt(Collapse("\n\n\n\n"), ThreeBreaks, 0)
  {
    var s := "\n\n\n\n";
    assert s[..3] == ThreeBreaks;
    assert s[3..] == "\n";
    assert Split("\n", ThreeBreaks) == ["\n"];
    assert Split(s, ThreeBreaks) == ["", "\n"];
    assert Join(["", "\n"], TwoBreaks) == "" + TwoBreaks + Join(["\n"], TwoBreaks);
  }
}
