/** `convertToToc`: regroups the `paths` object of a document into
    resources, one per tag, each holding method records keyed by the
    operation's unique name. */
module Toc {
  import opened Optional
  import opened Strings
  import opened Assoc
  import opened Document

  datatype ExternalDocs = ExternalDocs(url: Option<string>, description: Option<string>)

  /** An entry of the document's top-level `tags` list. */
  datatype TagDef = TagDef(name: string, description: Option<string>, externalDocs: Option<ExternalDocs>)

  /** The record filed for one operation: where it lives in `paths`. */
  datatype MethodRecord = MethodRecord(path: string, op: string)

  /** A resource: the documentation section of one tag. */
  datatype Resource = Resource(
    description: Option<string>,
    externalDocs: Option<ExternalDocs>,
    methods: seq<(string, MethodRecord)>)

  type PathItem = seq<(string, PathValue)>
  type Paths = seq<(string, PathItem)>
  type Resources = seq<(string, Resource)>

  /** One key of one path item, visited in document order. */
  datatype Entry = Entry(path: string, verb: string, value: PathValue)

  /** The key of a path item that holds shared parameters, not an operation. */
  const SharedKey := "parameters"

  /** The entries of one path item that become method records. */
  function ItemEntries(p: string, item: PathItem): (es: seq<Entry>)
    ensures forall e :: e in es <==>
      e.path == p && e.verb != SharedKey && (e.verb, e.value) in item
  {
    if |item| == 0 then []
    else
      var rest := ItemEntries(p, item[1..]);
      assert forall x :: x in item <==> x == item[0] || x in item[1..];
      if item[0].0 == SharedKey then rest
      else [Entry(p, item[0].0, item[0].1)] + rest
  }

  /** The entries of all paths that become method records, in document order. */
  function Entries(paths: Paths): (es: seq<Entry>)
    ensures forall e :: e in es <==>
      e.verb != SharedKey &&
      exists i :: 0 <= i < |paths| && paths[i].0 == e.path && (e.verb, e.value) in paths[i].1
  {
    if |paths| == 0 then []
    else
      var rest := Entries(paths[1..]);
      assert forall i :: 1 <= i < |paths| ==> paths[i] == paths[1..][i - 1];
      ItemEntries(paths[0].0, paths[0].1) + rest
  }

  /** The tag an operation is filed under: its first tag, or `Default`. */
  function TagOf(e: Entry): string
  {
    var tags := TagsOf(e.value);
    if tags.Some? && |tags.value| > 0 then tags.value[0]
    else "Default"
  }

  /** The operationId, or `method_path`, before its characters are replaced. */
  function RawName(e: Entry): string
  {
    if Truthy(OperationIdOf(e.value)) then OperationIdOf(e.value).value
    else e.verb + "_" + e.path
  }

  /** The key of a method record: the raw name with every `/` and every
      space turned into `_`. */
  function UniqueName(e: Entry): (name: string)
    ensures '/' !in name && ' ' !in name
  {
    var once := Join(Split(RawName(e), "/"), "_");
    SplitJoinReplaces(RawName(e), '/', '_');
    SplitJoinReplaces(once, ' ', '_');
    Join(Split(once, " "), "_")
  }

  /** The unique name keeps every other character of the raw name in place. */
  lemma UniqueNameReplaces(e: Entry)
    ensures |UniqueName(e)| == |RawName(e)|
    ensures forall i :: 0 <= i < |RawName(e)| ==>
      UniqueName(e)[i] == (if RawName(e)[i] == '/' || RawName(e)[i] == ' ' then '_' else RawName(e)[i])
  {
    var once := Join(Split(RawName(e), "/"), "_");
    SplitJoinReplaces(RawName(e), '/', '_');
    SplitJoinReplaces(once, ' ', '_');
  }

  function RecordOf(e: Entry): MethodRecord
  {
    MethodRecord(e.path, e.verb)
  }

  /** The last of the first `n` entries of `tags` with the given name. */
  function LastTagIn(tags: seq<TagDef>, name: string, n: nat): Option<TagDef>
    requires n <= |tags|
  {
    if n == 0 then None
    else if tags[n - 1].name == name then Some(tags[n - 1])
    else LastTagIn(tags, name, n - 1)
  }

  /** The last entry of `tags` with the given name; later entries win. */
  function LastTag(tags: seq<TagDef>, name: string): Option<TagDef>
  {
    LastTagIn(tags, name, |tags|)
  }

  lemma {:induction false} LastTagInWins(tags: seq<TagDef>, name: string, n: nat)
    requires n <= |tags|
    ensures LastTagIn(tags, name, n).None? <==> forall i :: 0 <= i < n ==> tags[i].name != name
    ensures LastTagIn(tags, name, n).Some? ==>
      exists i :: (0 <= i < n && tags[i] == LastTagIn(tags, name, n).value && tags[i].name == name &&
                   forall j :: i < j < n ==> tags[j].name != name)
  {
    if n > 0 && tags[n - 1].name != name {
      LastTagInWins(tags, name, n - 1);
    }
  }

  /** The tag definition a resource takes its description from is the last
      one in the list with that name, and there is none exactly when no
      definition has that name. */
  lemma LastTagWins(tags: seq<TagDef>, name: string)
    ensures LastTag(tags, name).None? <==> forall i :: 0 <= i < |tags| ==> tags[i].name != name
    ensures LastTag(tags, name).Some? ==>
      exists i :: (0 <= i < |tags| && tags[i] == LastTag(tags, name).value && tags[i].name == name &&
                   forall j :: i < j < |tags| ==> tags[j].name != name)
  {
    LastTagInWins(tags, name, |tags|);
  }

  /** A fresh resource: description and external docs copied from the
      matching tag definition, no methods yet. */
  function NewResource(tags: seq<TagDef>, name: string): Resource
  {
    match LastTag(tags, name)
    case Some(t) => Resource(t.description, t.externalDocs, [])
    case None => Resource(None, None, [])
  }

  /** Where one entry is filed: its tag, its unique name and its record. */
  datatype Filing = Filing(tag: string, key: string, record: MethodRecord)

  function FilingOf(e: Entry): (f: Filing)
    ensures f.tag == TagOf(e) && f.key == UniqueName(e) && f.record == RecordOf(e)
  {
    Filing(TagOf(e), UniqueName(e), RecordOf(e))
  }

  /** The filings of the entries, in order. */
  function Filings(es: seq<Entry>): (fs: seq<Filing>)
    ensures |fs| == |es|
    ensures forall i :: 0 <= i < |es| ==> fs[i] == FilingOf(es[i])
  {
    seq(|es|, i requires 0 <= i < |es| => FilingOf(es[i]))
  }

  /** Files one entry: creates the resource of its tag on first use, then
      sets the method record under its unique name. */
  function Insert(res: Resources, tags: seq<TagDef>, f: Filing): Resources
  {
    var r := GetOr(Get(res, f.tag), NewResource(tags, f.tag));
    Put(res, f.tag, r.(methods := Put(r.methods, f.key, f.record)))
  }

  /** Files the first `n` entries in order. */
  function BuildUpTo(fs: seq<Filing>, tags: seq<TagDef>, n: nat): Resources
    requires n <= |fs|
  {
    if n == 0 then [] else Insert(BuildUpTo(fs, tags, n - 1), tags, fs[n - 1])
  }

  /** `convertToToc(source).resources`: every entry filed in document order. */
  function ConvertToToc(paths: Paths, tags: seq<TagDef>): Resources
  {
    var fs := Filings(Entries(paths));
    BuildUpTo(fs, tags, |fs|)
  }

  /** `resources[tag].methods[key]`. */
  function LookupMethod(res: Resources, tag: string, key: string): Option<MethodRecord>
  {
    match Get(res, tag)
    case Some(r) => Get(r.methods, key)
    case None => None
  }

  /** The record of the last of the first `n` filings under `tag` with
      unique name `key`. */
  function LastFiledIn(fs: seq<Filing>, tag: string, key: string, n: nat): Option<MethodRecord>
    requires n <= |fs|
  {
    if n == 0 then None
    else if fs[n - 1].tag == tag && fs[n - 1].key == key then Some(fs[n - 1].record)
    else LastFiledIn(fs, tag, key, n - 1)
  }

  /** The record of the last filing under `tag` with unique name `key`. */
  function LastFiled(fs: seq<Filing>, tag: string, key: string): Option<MethodRecord>
  {
    LastFiledIn(fs, tag, key, |fs|)
  }

  lemma {:induction false} LastFiledInIsLast(fs: seq<Filing>, tag: string, key: string, n: nat)
    requires n <= |fs|
    ensures LastFiledIn(fs, tag, key, n).None? <==> forall i :: 0 <= i < n ==> !(fs[i].tag == tag && fs[i].key == key)
    ensures LastFiledIn(fs, tag, key, n).Some? ==>
      exists i :: (0 <= i < n && fs[i].tag == tag && fs[i].key == key && LastFiledIn(fs, tag, key, n).value == fs[i].record &&
                   forall j :: i < j < n ==> !(fs[j].tag == tag && fs[j].key == key))
  {
    if n > 0 && !(fs[n - 1].tag == tag && fs[n - 1].key == key) {
      LastFiledInIsLast(fs, tag, key, n - 1);
    }
  }

  /** `LastFiled` finds nothing exactly when nothing is filed that way, and
      otherwise the record of a filing that no later filing overrides. */
  lemma LastFiledIsLast(fs: seq<Filing>, tag: string, key: string)
    ensures LastFiled(fs, tag, key).None? <==> forall i :: 0 <= i < |fs| ==> !(fs[i].tag == tag && fs[i].key == key)
    ensures LastFiled(fs, tag, key).Some? ==>
      exists i :: (0 <= i < |fs| && fs[i].tag == tag && fs[i].key == key && LastFiled(fs, tag, key).value == fs[i].record &&
                   forall j :: i < j < |fs| ==> !(fs[j].tag == tag && fs[j].key == key))
  {
    LastFiledInIsLast(fs, tag, key, |fs|);
  }

  /** Filing one more entry changes only what is filed under its tag and
      name, which it now holds. */
  lemma InsertLookup(res: Resources, tags: seq<TagDef>, f: Filing, tag: string, key: string)
    ensures LookupMethod(Insert(res, tags, f), tag, key) ==
      if tag == f.tag && key == f.key then Some(f.record) else LookupMethod(res, tag, key)
  {
    var r := GetOr(Get(res, f.tag), NewResource(tags, f.tag));
    GetPut(res, f.tag, r.(methods := Put(r.methods, f.key, f.record)), tag);
    if tag == f.tag {
      GetPut(r.methods, f.key, f.record, key);
    }
  }

  /** Looking a method up after filing finds the last filing under that tag
      and name: a later entry overwrites an earlier one. */
  lemma {:induction false} BuildFindsLastFiled(fs: seq<Filing>, tags: seq<TagDef>, tag: string, key: string, n: nat)
    requires n <= |fs|
    ensures LookupMethod(BuildUpTo(fs, tags, n), tag, key) == LastFiledIn(fs, tag, key, n)
  {
    if n == 0 {
      assert BuildUpTo(fs, tags, 0) == [];
    } else {
      var prev := BuildUpTo(fs, tags, n - 1);
      var f := fs[n - 1];
      BuildFindsLastFiled(fs, tags, tag, key, n - 1);
      InsertLookup(prev, tags, f, tag, key);
      assert LastFiledIn(fs, tag, key, n) ==
        if f.tag == tag && f.key == key then Some(f.record) else LastFiledIn(fs, tag, key, n - 1);
    }
  }

  /** Filing one more entry adds the resource of its tag, keeping the
      description and external docs of an existing one. */
  lemma InsertResource(res: Resources, tags: seq<TagDef>, f: Filing, tag: string)
    ensures Get(Insert(res, tags, f), tag).Some? <==> Get(res, tag).Some? || tag == f.tag
    ensures tag != f.tag ==> Get(Insert(res, tags, f), tag) == Get(res, tag)
    ensures tag == f.tag ==>
      var r := GetOr(Get(res, tag), NewResource(tags, tag));
      Get(Insert(res, tags, f), tag).value.description == r.description &&
      Get(Insert(res, tags, f), tag).value.externalDocs == r.externalDocs
  {
    var r := GetOr(Get(res, f.tag), NewResource(tags, f.tag));
    GetPut(res, f.tag, r.(methods := Put(r.methods, f.key, f.record)), tag);
  }

  /** A resource exists exactly for the tags that some entry is filed under,
      and its description and external docs are those of the last tag
      definition with its name (absent when there is none). */
  lemma {:induction false} BuildResources(fs: seq<Filing>, tags: seq<TagDef>, tag: string, n: nat)
    requires n <= |fs|
    ensures Get(BuildUpTo(fs, tags, n), tag).Some? <==> exists i :: 0 <= i < n && fs[i].tag == tag
    ensures match Get(BuildUpTo(fs, tags, n), tag)
      case Some(r) => r.description == NewResource(tags, tag).description &&
                      r.externalDocs == NewResource(tags, tag).externalDocs
      case None => true
  {
    if n == 0 {
      assert BuildUpTo(fs, tags, 0) == [];
    } else {
      var prev := BuildUpTo(fs, tags, n - 1);
      BuildResources(fs, tags, tag, n - 1);
      InsertResource(prev, tags, fs[n - 1], tag);
    }
  }

  /** A filing whose key is free of `/` and spaces and whose record does
      not point at the shared `parameters` key. */
  predicate CleanFiling(f: Filing)
  {
    '/' !in f.key && ' ' !in f.key && f.record.op != SharedKey
  }

  /** Every stored method key is free of `/` and spaces, and no record
      points at the shared `parameters` key. */
  ghost predicate CleanKeys(res: Resources)
  {
    forall t, r :: (t, r) in res ==> CleanMethods(r.methods)
  }

  ghost predicate CleanMethods(methods: seq<(string, MethodRecord)>)
  {
    forall k, m :: (k, m) in methods ==> '/' !in k && ' ' !in k && m.op != SharedKey
  }

  lemma InsertKeepsClean(res: Resources, tags: seq<TagDef>, f: Filing)
    requires CleanKeys(res) && CleanFiling(f)
    ensures CleanKeys(Insert(res, tags, f))
  {
    var r := GetOr(Get(res, f.tag), NewResource(tags, f.tag));
    assert CleanMethods(r.methods) by {
      if Get(res, f.tag).Some? {
        assert (f.tag, r) in res;
      }
    }
    var r' := r.(methods := Put(r.methods, f.key, f.record));
    PutEntries(r.methods, f.key, f.record);
    assert CleanMethods(r'.methods);
    PutEntries(res, f.tag, r');
  }

  lemma {:induction false} BuildKeysClean(fs: seq<Filing>, tags: seq<TagDef>, n: nat)
    requires n <= |fs|
    requires forall i :: 0 <= i < |fs| ==> CleanFiling(fs[i])
    ensures CleanKeys(BuildUpTo(fs, tags, n))
  {
    if n > 0 {
      BuildKeysClean(fs, tags, n - 1);
      InsertKeepsClean(BuildUpTo(fs, tags, n - 1), tags, fs[n - 1]);
    }
  }

  /** The tags of the first `n` filings, each once, in order of first use. */
  function TagsInUse(fs: seq<Filing>, n: nat): seq<string>
    requires n <= |fs|
  {
    if n == 0 then []
    else
      var prev := TagsInUse(fs, n - 1);
      if fs[n - 1].tag in prev then prev else prev + [fs[n - 1].tag]
  }

  /** Filing one more entry appends its tag to the resources when it is new. */
  lemma InsertKeys(res: Resources, tags: seq<TagDef>, f: Filing)
    ensures Keys(Insert(res, tags, f)) == if f.tag in Keys(res) then Keys(res) else Keys(res) + [f.tag]
  {
    var r := GetOr(Get(res, f.tag), NewResource(tags, f.tag));
    KeysPut(res, f.tag, r.(methods := Put(r.methods, f.key, f.record)));
  }

  /** Resources are kept in the order their tag is first filed under. */
  lemma {:induction false} BuildKeysInOrder(fs: seq<Filing>, tags: seq<TagDef>, n: nat)
    requires n <= |fs|
    ensures Keys(BuildUpTo(fs, tags, n)) == TagsInUse(fs, n)
  {
    if n == 0 {
      assert BuildUpTo(fs, tags, 0) == [];
    } else {
      var prev := BuildUpTo(fs, tags, n - 1);
      var f := fs[n - 1];
      BuildKeysInOrder(fs, tags, n - 1);
      InsertKeys(prev, tags, f);
      assert BuildUpTo(fs, tags, n) == Insert(prev, tags, f);
    }
  }

  /** The table of contents: a method with unique name `key` filed under
      `tag` is the last path/method entry with that tag and name; resources
      exist exactly for the tags in use, described by the last tag
      definition of that name. */
  lemma ConvertToTocShape(paths: Paths, tags: seq<TagDef>, tag: string, key: string)
    ensures LookupMethod(ConvertToToc(paths, tags), tag, key) == LastFiled(Filings(Entries(paths)), tag, key)
    ensures Get(ConvertToToc(paths, tags), tag).Some? <==>
      exists i :: 0 <= i < |Entries(paths)| && TagOf(Entries(paths)[i]) == tag
    ensures match Get(ConvertToToc(paths, tags), tag)
      case Some(r) => r.description == NewResource(tags, tag).description &&
                      r.externalDocs == NewResource(tags, tag).externalDocs
      case None => true
  {
    var fs := Filings(Entries(paths));
    BuildFindsLastFiled(fs, tags, tag, key, |fs|);
    BuildResources(fs, tags, tag, |fs|);
  }

  /** No method key of the table of contents contains `/` or a space, and
      no method record points at the shared `parameters` key. */
  lemma ConvertToTocKeysClean(paths: Paths, tags: seq<TagDef>)
    ensures CleanKeys(ConvertToToc(paths, tags))
  {
    var es := Entries(paths);
    var fs := Filings(es);
    forall i | 0 <= i < |fs|
      ensures CleanFiling(fs[i])
    {
      assert es[i] in es;
    }
    BuildKeysClean(fs, tags, |fs|);
  }

  /** Every path/method entry other than `parameters` is filed: it can be
      found under its tag and unique name, holding its own record or that of
      a later entry with the same tag and name. */
  lemma EveryOperationFiled(paths: Paths, tags: seq<TagDef>, e: Entry)
    requires e in Entries(paths)
    ensures LookupMethod(ConvertToToc(paths, tags), TagOf(e), UniqueName(e)).Some?
  {
    var es := Entries(paths);
    var fs := Filings(es);
    BuildFindsLastFiled(fs, tags, TagOf(e), UniqueName(e), |fs|);
    LastFiledIsLast(fs, TagOf(e), UniqueName(e));
    var i :| 0 <= i < |es| && es[i] == e;
    assert fs[i] == FilingOf(e);
  }

  /** The resources, and so the sections of the document, come in the order
      in which their tag is first used by a path/method entry. */
  lemma ConvertToTocOrder(paths: Paths, tags: seq<TagDef>)
    ensures Keys(ConvertToToc(paths, tags)) == TagsInUse(Filings(Entries(paths)), |Entries(paths)|)
  {
    var fs := Filings(Entries(paths));
    BuildKeysInOrder(fs, tags, |fs|);
  }
}
