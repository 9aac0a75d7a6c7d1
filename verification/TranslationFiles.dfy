/** JSON import and export of one language (`import_translations`, `export_translations_to_dict`). */
module TranslationFiles {
  import opened Options
  import opened Folds
  import opened Translations

  /** A parsed JSON document; the keys of an object are distinct. */
  datatype Json =
    | JNull
    | JBool(b: bool)
    | JNumber(n: int)
    | JString(s: string)
    | JArray(items: seq<Json>)
    | JObject(members: seq<(string, Json)>)

  /** An uploaded file, after `json.loads`. */
  datatype Upload = JsonFile(doc: Json) | BadJson | OtherFile

  datatype Report = Report(added: nat, updated: nat, skipped: nat, errors: nat)

  // Reading one entry

  function Member(members: seq<(string, Json)>, name: string, default: Json): Json {
    if members == [] then default
    else if members[0].0 == name then members[0].1
    else Member(members[1..], name, default)
  }

  /** A nullable string field. `None`: the request schema refuses the value. */
  function ReadString(j: Json): Option<Option<string>> {
    match j
    case JNull => Some(None)
    case JString(s) => Some(Some(s))
    case _ => None
  }

  function ReadPlural(j: Json): Option<PluralForm> {
    if j.JObject? then
      match (Member(j.members, "quantity", JNull), Member(j.members, "value", JNull))
      case (JString(q), JString(v)) => Some(PluralForm(q, v))
      case _ => None
    else None
  }

  function ReadPlurals(items: seq<Json>): Option<seq<PluralForm>> {
    if items == [] then Some([])
    else
      match (ReadPlural(items[0]), ReadPlurals(items[1..]))
      case (Some(p), Some(ps)) => Some([p] + ps)
      case _ => None
  }

  function ReadPluralList(j: Json): Option<Option<seq<PluralForm>>> {
    match j
    case JNull => Some(None)
    case JArray(items) =>
      (match ReadPlurals(items) case Some(ps) => Some(Some(ps)) case None => None)
    case _ => None
  }

  /** The content an entry asks for: a bare value, or an object with `value`, `context` and
      `plural_forms`. `None`: validation fails. */
  function ReadContent(j: Json): Option<Content> {
    var (v, c, p) :=
      if j.JObject? then (Member(j.members, "value", JString("")), Member(j.members, "context", JNull),
                          Member(j.members, "plural_forms", JNull))
      else (j, JNull, JNull);
    match (ReadString(v), ReadString(c), ReadPluralList(p))
    case (Some(value), Some(context), Some(plurals)) => Some(Content(value, context, plurals))
    case _ => None
  }

  // Importing, as functions

  function Skip(r: Report): Report {
    r.(skipped := r.skipped + 1, errors := r.errors + 1)
  }

  function SetContent(c: Content): Update {
    Update(Unset, Set(c.value), Set(c.context), Set(c.plurals), Set(Some(false)), Set(Some(false)))
  }

  /** One entry: update the row if there is one, create it otherwise; an entry that fails validation
      is skipped and the import goes on. */
  function ImportEntry(db: Db, r: Report, code: string, language: nat, group: string, key: string, j: Json): (Db, Report) {
    var existing := FindRow(db.rows, language, GroupId(db, group), key);
    match ReadContent(j)
    case None => (db, Skip(r))
    case Some(c) =>
      if existing.Some? then (Updated(db, existing.value, SetContent(c)), r.(updated := r.updated + 1))
      else if c.value.None? then (db, Skip(r))
      else
        var (d, error) := Create(db, code, group, key, c.value.value, c.context, c.plurals, false, false);
        (d, if error.None? then r.(added := r.added + 1) else Skip(r))
  }

  function EntryStep(code: string, language: nat, group: string): ((Db, Report), (string, Json)) -> (Db, Report) {
    (s: (Db, Report), e: (string, Json)) => ImportEntry(s.0, s.1, code, language, group, e.0, e.1)
  }

  /** The first `n` entries of one group. */
  function ImportEntries(db: Db, r: Report, code: string, language: nat, group: string,
                         entries: seq<(string, Json)>, n: nat): (Db, Report)
    requires n <= |entries|
  {
    Fold(EntryStep(code, language, group), (db, r), entries, n)
  }

  /** One group; it is created even when what stands under it is not an object. */
  function ImportGroup(db: Db, r: Report, code: string, language: nat, group: string, j: Json): (Db, Report) {
    var d := WithGroup(db, group);
    if j.JObject? then ImportEntries(d, r, code, language, group, j.members, |j.members|) else (d, r)
  }

  function GroupStep(code: string, language: nat): ((Db, Report), (string, Json)) -> (Db, Report) {
    (s: (Db, Report), e: (string, Json)) => ImportGroup(s.0, s.1, code, language, e.0, e.1)
  }

  /** The first `n` groups of a document. */
  function ImportGroups(db: Db, r: Report, code: string, language: nat, doc: seq<(string, Json)>, n: nat): (Db, Report)
    requires n <= |doc|
  {
    Fold(GroupStep(code, language), (db, r), doc, n)
  }

  /** `import_translations`; `None` stands for the 404 answer on an unknown language. */
  function Import(db: Db, code: string, upload: Upload): Option<(Db, Report)> {
    match FindName(db.languages, code)
    case None => None
    case Some(language) =>
      var r := Report(0, 0, 0, 0);
      if upload.JsonFile? && upload.doc.JObject? then
        Some(ImportGroups(db, r, code, language, upload.doc.members, |upload.doc.members|))
      else Some((db, r.(errors := 1)))
  }

  // Exporting, as functions

  /** The rows of a language, or all rows. */
  function RowsIn(rows: seq<Translation>, language: Option<nat>): set<nat> {
    set i: nat | i < |rows| && (language.None? || rows[i].language == language.value)
  }

  /** An empty or unknown language code filters nothing. */
  function LanguageFilter(db: Db, code: string): Option<nat> {
    if code == "" then None else FindName(db.languages, code)
  }

  /** `q` is an answer of `get_translations` as the exporter calls it: rows that pass the filter, none
      twice, all of them or as many as the limit of 10000 allows. The database chooses which, and the order. */
  ghost predicate Answers(q: seq<nat>, db: Db, code: string) {
    var all := RowsIn(db.rows, LanguageFilter(db, code));
    && (forall k | 0 <= k < |q| :: q[k] in all)
    && (forall j, k | 0 <= j < k < |q| :: q[j] != q[k])
    && |q| == if |all| > 10000 then 10000 else |all|
  }

  function StringOrNull(v: Option<string>): Json {
    match v case None => JNull case Some(s) => JString(s)
  }

  function PluralJson(p: PluralForm): Json {
    JObject([("quantity", JString(p.quantity)), ("value", JString(p.value))])
  }

  function PluralsJson(ps: seq<PluralForm>): seq<Json> {
    if ps == [] then [] else [PluralJson(ps[0])] + PluralsJson(ps[1..])
  }

  /** A bare value, or an object when there is a context or there are plural forms; empty ones count
      as absent. */
  function ContentJson(c: Content): Json {
    var context := if c.context.Some? && c.context.value != "" then [("context", JString(c.context.value))] else [];
    var plurals :=
      if c.plurals.Some? && c.plurals.value != [] then [("plural_forms", JArray(PluralsJson(c.plurals.value)))] else [];
    if context + plurals == [] then StringOrNull(c.value)
    else JObject([("value", StringOrNull(c.value))] + context + plurals)
  }

  /** A nested dictionary: groups and their entries, in insertion order. */
  type Doc = seq<(string, seq<(string, Json)>)>

  function SetKey(entries: seq<(string, Json)>, key: string, j: Json): seq<(string, Json)> {
    if entries == [] then [(key, j)]
    else if entries[0].0 == key then [(key, j)] + entries[1..]
    else [entries[0]] + SetKey(entries[1..], key, j)
  }

  function AddEntry(doc: Doc, group: string, key: string, j: Json): Doc {
    if doc == [] then [(group, [(key, j)])]
    else if doc[0].0 == group then [(group, SetKey(doc[0].1, key, j))] + doc[1..]
    else [doc[0]] + AddEntry(doc[1..], group, key, j)
  }

  /** The dictionary after the first `n` rows of the query. */
  function ExportRows(db: Db, q: seq<nat>, n: nat): Doc
    requires n <= |q| && forall k | 0 <= k < |q| :: q[k] < |db.rows| && db.rows[q[k]].group < |db.groups|
  {
    if n == 0 then []
    else
      var t := db.rows[q[n - 1]];
      AddEntry(ExportRows(db, q, n - 1), db.groups[t.group], t.key, ContentJson(t.content))
  }

  function Export(db: Db, q: seq<nat>): Doc
    requires Bounded(db) && forall k | 0 <= k < |q| :: q[k] < |db.rows|
  {
    ExportRows(db, q, |q|)
  }

  /** The JSON text of an export, read again. */
  function Dump(doc: Doc): Json {
    JObject(seq(|doc|, k requires 0 <= k < |doc| => (doc[k].0, JObject(doc[k].1))))
  }

  // The loops

  method ImportOne(store: TranslationStore, r: Report, code: string, language: nat, group: string, g: nat,
                   key: string, j: Json) returns (s: Report)
    requires g == GroupId(store.Tables(), group)
    modifies store
    ensures (store.Tables(), s) == ImportEntry(old(store.Tables()), r, code, language, group, key, j)
  {
    var existing := FindRow(store.rows, language, g, key);
    var c := ReadContent(j);
    if c.None? {
      return r.(errors := r.errors + 1, skipped := r.skipped + 1);
    }
    if existing.Some? {
      var _ := store.UpdateTranslation(existing.value, SetContent(c.value));
      return r.(updated := r.updated + 1);
    }
    if c.value.value.None? {
      return r.(errors := r.errors + 1, skipped := r.skipped + 1);
    }
    var error := store.CreateTranslation(code, group, key, c.value.value.value, c.value.context,
                                         c.value.plurals, false, false);
    s := if error.None? then r.(added := r.added + 1) else r.(errors := r.errors + 1, skipped := r.skipped + 1);
  }

  method ImportMembers(store: TranslationStore, r0: Report, code: string, language: nat, group: string, g: nat,
                       members: seq<(string, Json)>) returns (r: Report)
    requires FindName(store.groups, group) == Some(g)
    modifies store
    ensures (store.Tables(), r) == ImportEntries(old(store.Tables()), r0, code, language, group, members, |members|)
  {
    ghost var db := store.Tables();
    r := r0;
    for b := 0 to |members|
      invariant (store.Tables(), r) == ImportEntries(db, r0, code, language, group, members, b)
    {
      GroupStays(db, r0, code, language, group, members, b);
      r := ImportOne(store, r, code, language, group, g, members[b].0, members[b].1);
    }
  }

  method ImportTranslations(store: TranslationStore, code: string, upload: Upload) returns (result: Option<Report>)
    modifies store
    ensures match Import(old(store.Tables()), code, upload)
            case None => result == None && store.Tables() == old(store.Tables())
            case Some((d, r)) => result == Some(r) && store.Tables() == d
  {
    var language := FindName(store.languages, code);
    if language.None? {
      return None;
    }
    var r := Report(0, 0, 0, 0);
    if !(upload.JsonFile? && upload.doc.JObject?) {
      return Some(r.(errors := 1));
    }
    var doc := upload.doc.members;
    ghost var db := store.Tables();
    for a := 0 to |doc|
      invariant (store.Tables(), r) == ImportGroups(db, Report(0, 0, 0, 0), code, language.value, doc, a)
    {
      var (group, j) := doc[a];
      var g := store.GetOrCreateGroup(group);
      if j.JObject? {
        r := ImportMembers(store, r, code, language.value, group, g, j.members);
      }
    }
    result := Some(r);
  }

  lemma EntryKeepsGroups(db: Db, r: Report, code: string, language: nat, group: string, key: string, j: Json)
    requires FindName(db.groups, group).Some?
    ensures ImportEntry(db, r, code, language, group, key, j).0.groups == db.groups
  {
  }

  /** Importing entries of a group that exists creates no group. */
  lemma GroupStays(db: Db, r: Report, code: string, language: nat, group: string,
                   entries: seq<(string, Json)>, n: nat)
    requires n <= |entries| && FindName(db.groups, group).Some?
    ensures ImportEntries(db, r, code, language, group, entries, n).0.groups == db.groups
  {
    var f := EntryStep(code, language, group);
    var p := (s: (Db, Report)) => s.0.groups == db.groups;
    forall a, x: (Db, Report) | 0 <= a < |entries| && p(x)
      ensures p(f(x, entries[a]))
    {
      EntryKeepsGroups(x.0, x.1, code, language, group, entries[a].0, entries[a].1);
    }
    FoldKeeps(f, p, (db, r), entries, n);
  }

  method ExportTranslationsToDict(store: TranslationStore, code: string, q: seq<nat>) returns (doc: Doc)
    requires Bounded(store.Tables()) && Answers(q, store.Tables(), code)
    ensures doc == Export(store.Tables(), q)
  {
    doc := [];
    for n := 0 to |q|
      invariant doc == ExportRows(store.Tables(), q, n)
    {
      var t := store.rows[q[n]];
      doc := AddEntry(doc, store.groups[t.group], t.key, ContentJson(t.content));
    }
  }
}
