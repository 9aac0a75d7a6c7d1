/** Importing an export: into the language it came from it changes nothing that was exported, into an
    empty language it rebuilds the same entries. */
module TranslationRoundTrip {
  import opened Options
  import opened Folds
  import opened Translations
  import opened TranslationFiles
  import Runs = TranslationRuns

  // One entry, written and read

  /** What survives writing and reading: an empty context or list of plural forms becomes none. */
  function Normal(c: Content): Content {
    Content(c.value, if c.context == Some("") then None else c.context, NoEmptyList(c.plurals))
  }

  lemma PluralReadBack(p: PluralForm)
    ensures ReadPlural(PluralJson(p)) == Some(p)
  {
    var members := PluralJson(p).members;
    assert members[1..] == [("value", JString(p.value))];
    assert Member(members[1..], "value", JNull) == JString(p.value);
  }

  lemma {:induction false} PluralsReadBack(ps: seq<PluralForm>)
    ensures ReadPlurals(PluralsJson(ps)) == Some(ps)
  {
    if ps != [] {
      PluralReadBack(ps[0]);
      PluralsReadBack(ps[1..]);
      var js := PluralsJson(ps);
      assert js[0] == PluralJson(ps[0]) && js[1..] == PluralsJson(ps[1..]);
      assert [ps[0]] + ps[1..] == ps;
    }
  }

  function ContextMember(c: Content): seq<(string, Json)> {
    if c.context.Some? && c.context.value != "" then [("context", JString(c.context.value))] else []
  }

  function PluralsMember(c: Content): seq<(string, Json)> {
    if c.plurals.Some? && c.plurals.value != [] then [("plural_forms", JArray(PluralsJson(c.plurals.value)))] else []
  }

  lemma MembersFound(c: Content)
    ensures var members := [("value", StringOrNull(c.value))] + ContextMember(c) + PluralsMember(c);
            && Member(members, "value", JString("")) == StringOrNull(c.value)
            && Member(members, "context", JNull) == (if ContextMember(c) == [] then JNull else ContextMember(c)[0].1)
            && Member(members, "plural_forms", JNull) == (if PluralsMember(c) == [] then JNull else PluralsMember(c)[0].1)
  {
    var context, plurals := ContextMember(c), PluralsMember(c);
    var members := [("value", StringOrNull(c.value))] + context + plurals;
    assert members[1..] == context + plurals;
    assert context == [] ==> context + plurals == plurals;
    assert context != [] ==> (context + plurals)[1..] == plurals;
    assert plurals != [] ==> plurals[1..] == [];
    assert Member(plurals, "context", JNull) == JNull;
    assert Member(plurals, "plural_forms", JNull) == if plurals == [] then JNull else plurals[0].1;
    assert Member(context + plurals, "context", JNull) == if context == [] then JNull else context[0].1;
    assert Member(context + plurals, "plural_forms", JNull) == Member(plurals, "plural_forms", JNull);
    assert Member(members, "context", JNull) == Member(context + plurals, "context", JNull);
    assert Member(members, "plural_forms", JNull) == Member(context + plurals, "plural_forms", JNull);
  }

  /** Reading what was written for a row gives its content back. */
  lemma ContentReadBack(c: Content)
    ensures ReadContent(ContentJson(c)) == Some(Normal(c))
  {
    MembersFound(c);
    if c.plurals.Some? {
      PluralsReadBack(c.plurals.value);
    }
    if ContextMember(c) + PluralsMember(c) != [] {
      var members := [("value", StringOrNull(c.value))] + ContextMember(c) + PluralsMember(c);
      assert ContentJson(c) == JObject(members);
      assert ReadPluralList(Member(members, "plural_forms", JNull)) == Some(NoEmptyList(c.plurals));
    } else {
      assert ContextMember(c) == [] && PluralsMember(c) == [];
    }
  }

  // A document as a list of entries

  /** A group, a key and what is stored under them. */
  type Entry = (string, string, Json)

  function GroupEntries(group: string, entries: seq<(string, Json)>): (r: seq<Entry>)
    ensures |r| == |entries|
    ensures forall b | 0 <= b < |r| :: r[b] == (group, entries[b].0, entries[b].1)
  {
    seq(|entries|, b requires 0 <= b < |entries| => (group, entries[b].0, entries[b].1))
  }

  function Flat(doc: Doc): seq<Entry> {
    if doc == [] then [] else GroupEntries(doc[0].0, doc[0].1) + Flat(doc[1..])
  }

  /** No group and key twice. */
  ghost predicate NoRepeat(es: seq<Entry>) {
    forall a, b | 0 <= a < b < |es| :: !(es[a].0 == es[b].0 && es[a].1 == es[b].1)
  }

  ghost predicate Fresh(es: seq<Entry>, group: string, key: string) {
    forall a | 0 <= a < |es| :: !(es[a].0 == group && es[a].1 == key)
  }

  lemma {:induction false} SetKeyFresh(entries: seq<(string, Json)>, key: string, j: Json)
    requires forall b | 0 <= b < |entries| :: entries[b].0 != key
    ensures SetKey(entries, key, j) == entries + [(key, j)]
  {
    if entries != [] {
      SetKeyFresh(entries[1..], key, j);
    }
  }

  lemma AddToFirst(doc: Doc, group: string, key: string, j: Json)
    requires doc != [] && doc[0].0 == group
    requires Fresh(GroupEntries(group, doc[0].1), group, key)
    ensures Flat(AddEntry(doc, group, key, j))
         == GroupEntries(group, doc[0].1) + [(group, key, j)] + Flat(doc[1..])
  {
    forall b | 0 <= b < |doc[0].1|
      ensures doc[0].1[b].0 != key
    {
      assert GroupEntries(group, doc[0].1)[b] == (group, doc[0].1[b].0, doc[0].1[b].1);
    }
    SetKeyFresh(doc[0].1, key, j);
    var doc' := AddEntry(doc, group, key, j);
    assert doc'[0].1 == doc[0].1 + [(key, j)] && doc'[1..] == doc[1..];
    assert GroupEntries(group, doc'[0].1) == GroupEntries(group, doc[0].1) + [(group, key, j)];
  }

  lemma FreshParts(es: seq<Entry>, more: seq<Entry>, group: string, key: string)
    requires Fresh(es + more, group, key)
    ensures Fresh(es, group, key) && Fresh(more, group, key)
  {
    assert forall a | 0 <= a < |es| :: (es + more)[a] == es[a];
    assert forall a | 0 <= a < |more| :: (es + more)[|es| + a] == more[a];
  }

  lemma Shift(here: seq<Entry>, before: seq<Entry>, e: Entry, after: seq<Entry>)
    ensures here + (before + after) == here + before + after
    ensures here + (before + [e] + after) == here + before + [e] + after
  {
  }

  lemma FlatCons(doc: Doc)
    requires doc != []
    ensures Flat(doc) == GroupEntries(doc[0].0, doc[0].1) + Flat(doc[1..])
  {
  }

  lemma FlatOne(group: string, key: string, j: Json)
    ensures Flat([(group, [(key, j)])]) == [(group, key, j)]
  {
    var doc := [(group, [(key, j)])];
    assert doc[1..] == [];
    assert Flat(doc) == GroupEntries(group, [(key, j)]);
  }

  lemma AddToLater(doc: Doc, group: string, key: string, j: Json)
    requires doc != [] && doc[0].0 != group
    ensures Flat(AddEntry(doc, group, key, j))
         == GroupEntries(doc[0].0, doc[0].1) + Flat(AddEntry(doc[1..], group, key, j))
  {
    var doc' := AddEntry(doc, group, key, j);
    assert doc'[0] == doc[0] && doc'[1..] == AddEntry(doc[1..], group, key, j);
    FlatCons(doc');
  }

  /** A new key is inserted somewhere into the list, and nothing else changes. */
  lemma {:induction false} AddEntryInserts(doc: Doc, group: string, key: string, j: Json)
    returns (before: seq<Entry>, after: seq<Entry>)
    requires Fresh(Flat(doc), group, key)
    ensures Flat(doc) == before + after
    ensures Flat(AddEntry(doc, group, key, j)) == before + [(group, key, j)] + after
  {
    if doc == [] {
      before, after := [], [];
      FlatOne(group, key, j);
    } else if doc[0].0 == group {
      hide Flat, GroupEntries, AddEntry, Fresh;
      before, after := GroupEntries(doc[0].0, doc[0].1), Flat(doc[1..]);
      FlatCons(doc);
      FreshParts(before, after, group, key);
      AddToFirst(doc, group, key, j);
    } else {
      hide Flat, GroupEntries, AddEntry, Fresh;
      var here := GroupEntries(doc[0].0, doc[0].1);
      FlatCons(doc);
      FreshParts(here, Flat(doc[1..]), group, key);
      before, after := AddEntryInserts(doc[1..], group, key, j);
      AddToLater(doc, group, key, j);
      Shift(here, before, (group, key, j), after);
      before := here + before;
    }
  }

  // What an export lists

  /** What the exporter writes for row `i`. */
  function EntryOf(db: Db, i: nat): Entry
    requires i < |db.rows| && db.rows[i].group < |db.groups|
  {
    (db.groups[db.rows[i].group], db.rows[i].key, ContentJson(db.rows[i].content))
  }

  /** `q` lists rows of one language. */
  ghost predicate RowsOf(db: Db, q: seq<nat>, language: nat) {
    forall k | 0 <= k < |q| :: q[k] < |db.rows| && db.rows[q[k]].language == language
  }

  ghost predicate NoneTwice(q: seq<nat>) {
    forall j, k | 0 <= j < k < |q| :: q[j] != q[k]
  }

  /** Different rows of one language differ in group name or key. */
  lemma DifferentEntries(db: Db, q: seq<nat>, language: nat, j: nat, k: nat)
    requires References(db) && UniqueIn(db.rows, language) && RowsOf(db, q, language) && NoneTwice(q) && j < k < |q|
    ensures EntryOf(db, q[j]).0 != EntryOf(db, q[k]).0 || EntryOf(db, q[j]).1 != EntryOf(db, q[k]).1
  {
    var s, t := db.rows[q[j]], db.rows[q[k]];
    assert q[j] != q[k];
    assert !IsAt(t, s.language, s.group, s.key);
  }

  function EntriesOf(db: Db, q: seq<nat>, n: nat): (es: seq<Entry>)
    requires Bounded(db) && n <= |q| && forall k | 0 <= k < |q| :: q[k] < |db.rows|
    ensures |es| == n && forall k | 0 <= k < n :: es[k] == EntryOf(db, q[k])
  {
    seq(n, k requires 0 <= k < n => EntryOf(db, q[k]))
  }

  lemma Inserted(before: seq<Entry>, after: seq<Entry>, e: Entry)
    requires NoRepeat(before + after) && Fresh(before + after, e.0, e.1)
    ensures NoRepeat(before + [e] + after)
    ensures forall x :: x in before + [e] + after <==> x in before + after || x == e
  {
    var es, es' := before + after, before + [e] + after;
    forall a, b | 0 <= a < b < |es'|
      ensures !(es'[a].0 == es'[b].0 && es'[a].1 == es'[b].1)
    {
      var n := |before|;
      assert a != n ==> es'[a] == es[if a < n then a else a - 1];
      assert b != n ==> es'[b] == es[if b < n then b else b - 1];
    }
  }

  /** The dictionary after the first `n` entries of a list have been added. */
  function Build(es: seq<Entry>, n: nat): Doc
    requires n <= |es|
  {
    if n == 0 then [] else AddEntry(Build(es, n - 1), es[n - 1].0, es[n - 1].1, es[n - 1].2)
  }

  ghost predicate SameEntries(es: seq<Entry>, fs: seq<Entry>) {
    |es| == |fs| && forall e :: e in es <==> e in fs
  }

  /** `doc` lists the first `n` entries, none of them twice. */
  ghost predicate Listing(doc: Doc, es: seq<Entry>, n: nat)
    requires n <= |es|
  {
    NoRepeat(Flat(doc)) && SameEntries(Flat(doc), es[..n])
  }

  lemma NextIsFresh(listed: seq<Entry>, es: seq<Entry>, n: nat)
    requires NoRepeat(es) && n < |es| && SameEntries(listed, es[..n])
    ensures Fresh(listed, es[n].0, es[n].1)
  {
    forall a | 0 <= a < |listed|
      ensures !(listed[a].0 == es[n].0 && listed[a].1 == es[n].1)
    {
      assert listed[a] in listed && listed[a] in es[..n];
      var k :| 0 <= k < n && es[..n][k] == listed[a];
    }
  }

  lemma ListOneMore(doc: Doc, es: seq<Entry>, n: nat)
    requires NoRepeat(es) && n < |es| && Listing(doc, es, n)
    ensures Listing(AddEntry(doc, es[n].0, es[n].1, es[n].2), es, n + 1)
  {
    NextIsFresh(Flat(doc), es, n);
    var before, after := AddEntryInserts(doc, es[n].0, es[n].1, es[n].2);
    Inserted(before, after, es[n]);
    assert es[..n + 1] == es[..n] + [es[n]];
  }

  lemma {:induction false} BuildLists(es: seq<Entry>, n: nat)
    requires NoRepeat(es) && n <= |es|
    ensures Listing(Build(es, n), es, n)
  {
    if n > 0 {
      BuildLists(es, n - 1);
      ListOneMore(Build(es, n - 1), es, n - 1);
    }
  }

  lemma {:induction false} ExportIsBuild(db: Db, q: seq<nat>, n: nat)
    requires Bounded(db) && n <= |q| && forall k | 0 <= k < |q| :: q[k] < |db.rows|
    ensures ExportRows(db, q, n) == Build(EntriesOf(db, q, |q|), n)
  {
    hide AddEntry, ContentJson;
    if n > 0 {
      ExportIsBuild(db, q, n - 1);
    }
  }

  /** An export lists the entries of the rows in the query, none of them twice. */
  lemma ExportLists(db: Db, q: seq<nat>, language: nat)
    requires References(db) && UniqueIn(db.rows, language) && RowsOf(db, q, language) && NoneTwice(q)
    ensures var es := Flat(ExportRows(db, q, |q|));
            NoRepeat(es) && SameEntries(es, EntriesOf(db, q, |q|))
  {
    var es := EntriesOf(db, q, |q|);
    forall a, b | 0 <= a < b < |es|
      ensures !(es[a].0 == es[b].0 && es[a].1 == es[b].1)
    {
      DifferentEntries(db, q, language, a, b);
    }
    ExportIsBuild(db, q, |q|);
    BuildLists(es, |es|);
    assert es[..|es|] == es;
  }

  // An import, entry by entry

  function ImportTurn(s: (Db, Report), code: string, language: nat, e: Entry): (Db, Report) {
    ImportEntry(WithGroup(s.0, e.0), s.1, code, language, e.0, e.1, e.2)
  }

  /** Importing one entry, with its group. */
  function FlatStep(code: string, language: nat): ((Db, Report), Entry) -> (Db, Report) {
    (s: (Db, Report), e: Entry) => ImportTurn(s, code, language, e)
  }

  /** Importing the first `n` entries of a list, each with its group. */
  function ImportFlat(db: Db, r: Report, code: string, language: nat, es: seq<Entry>, n: nat): (Db, Report)
    requires n <= |es|
  {
    Fold(FlatStep(code, language), (db, r), es, n)
  }

  lemma ImportFlatStep(db: Db, r: Report, code: string, language: nat, es: seq<Entry>, n: nat)
    requires n < |es|
    ensures var (d, s) := ImportFlat(db, r, code, language, es, n);
            var e := es[n];
            ImportFlat(db, r, code, language, es, n + 1)
            == ImportEntry(WithGroup(d, e.0), s, code, language, e.0, e.1, e.2)
  {
  }

  /** One non-empty group. */
  lemma {:induction false} GroupIsFlat(db: Db, r: Report, code: string, language: nat, group: string,
                                       entries: seq<(string, Json)>, n: nat)
    requires 0 < n <= |entries|
    ensures ImportEntries(WithGroup(db, group), r, code, language, group, entries, n)
         == ImportFlat(db, r, code, language, GroupEntries(group, entries), n)
  {
    var es := GroupEntries(group, entries);
    var d0 := WithGroup(db, group);
    var (d, s) := ImportEntries(d0, r, code, language, group, entries, n - 1);
    assert ImportEntries(d0, r, code, language, group, entries, n)
        == ImportEntry(d, s, code, language, group, entries[n - 1].0, entries[n - 1].1);
    if n > 1 {
      GroupIsFlat(db, r, code, language, group, entries, n - 1);
      GroupExists(db, group);
      GroupStays(d0, r, code, language, group, entries, n - 1);
      assert WithGroup(d, group) == d;
    }
    ImportFlatStep(db, r, code, language, es, n - 1);
  }

  lemma GroupExists(db: Db, group: string)
    ensures FindName(WithGroup(db, group).groups, group).Some?
  {
    assert FindName(db.groups, group).None? ==> WithGroup(db, group).groups[|db.groups|] == group;
  }

  /** Folding over groups, where one group is folded entry by entry, is folding over the list. */
  lemma {:induction false} NestedFold<S(!new), G>(f: (S, Entry) -> S, step: (S, G) -> S, s: S, gs: seq<G>,
                                                  doc: Doc, n: nat)
    requires n <= |doc| == |gs|
    requires forall a, x: S {:trigger step(x, gs[a])} | 0 <= a < |doc| ::
               step(x, gs[a]) == Fold(f, x, GroupEntries(doc[a].0, doc[a].1), |doc[a].1|)
    ensures Fold(step, s, gs, n) == Fold(f, s, Flat(doc[..n]), |Flat(doc[..n])|)
  {
    if n == 0 {
      assert doc[..0] == [];
    } else {
      NestedFold(f, step, s, gs, doc, n - 1);
      var before, more := Flat(doc[..n - 1]), GroupEntries(doc[n - 1].0, doc[n - 1].1);
      FlatAppend(doc[..n - 1], doc[n - 1]);
      assert doc[..n] == doc[..n - 1] + [doc[n - 1]];
      FoldAppend(f, s, before, more, |more|);
      assert step(Fold(step, s, gs, n - 1), gs[n - 1]) == Fold(f, Fold(step, s, gs, n - 1), more, |more|);
    }
  }

  /** A document whose groups all have entries is imported entry by entry. */
  lemma DocIsFlat(db: Db, r: Report, code: string, language: nat, doc: Doc)
    requires forall a | 0 <= a < |doc| :: doc[a].1 != []
    ensures ImportGroups(db, r, code, language, Dump(doc).members, |doc|)
         == ImportFlat(db, r, code, language, Flat(doc), |Flat(doc)|)
  {
    var f, step, gs := FlatStep(code, language), GroupStep(code, language), Dump(doc).members;
    forall a, x: (Db, Report) | 0 <= a < |doc|
      ensures step(x, gs[a]) == Fold(f, x, GroupEntries(doc[a].0, doc[a].1), |doc[a].1|)
    {
      assert gs[a] == (doc[a].0, JObject(doc[a].1));
      GroupIsFlat(x.0, x.1, code, language, doc[a].0, doc[a].1, |doc[a].1|);
    }
    NestedFold(f, step, (db, r), gs, doc, |doc|);
    assert doc[..|doc|] == doc;
  }

  lemma {:induction false} FlatAppend(doc: Doc, g: (string, seq<(string, Json)>))
    ensures Flat(doc + [g]) == Flat(doc) + GroupEntries(g.0, g.1)
  {
    if doc == [] {
      assert doc + [g] == [g] && [g][1..] == [];
    } else {
      FlatAppend(doc[1..], g);
      assert (doc + [g])[1..] == doc[1..] + [g];
    }
  }

  /** No group of an export is empty. */
  lemma {:induction false} AddEntryNonEmpty(doc: Doc, group: string, key: string, j: Json)
    requires forall a | 0 <= a < |doc| :: doc[a].1 != []
    ensures forall a | 0 <= a < |AddEntry(doc, group, key, j)| :: AddEntry(doc, group, key, j)[a].1 != []
  {
    if doc != [] && doc[0].0 != group {
      AddEntryNonEmpty(doc[1..], group, key, j);
    }
  }

  lemma {:induction false} ExportNonEmpty(db: Db, q: seq<nat>, n: nat)
    requires n <= |q| && forall k | 0 <= k < |q| :: q[k] < |db.rows| && db.rows[q[k]].group < |db.groups|
    ensures forall a | 0 <= a < |ExportRows(db, q, n)| :: ExportRows(db, q, n)[a].1 != []
  {
    if n > 0 {
      ExportNonEmpty(db, q, n - 1);
      var t := db.rows[q[n - 1]];
      AddEntryNonEmpty(ExportRows(db, q, n - 1), db.groups[t.group], t.key, ContentJson(t.content));
    }
  }

  // Back into the same language

  /** A row after its own export has been imported: same place, same content up to empty contexts and
      lists, no longer marked as machine translated or for review. */
  function Reimported(t: Translation): Translation {
    t.(content := Normal(t.content), machine := Some(false), review := Some(false))
  }

  function ReimportedAt(rows: seq<Translation>, ids: set<nat>): (r: seq<Translation>)
    ensures |r| == |rows|
    ensures forall i: nat | i < |rows| :: r[i] == if i in ids then Reimported(rows[i]) else rows[i]
  {
    seq(|rows|, i requires 0 <= i < |rows| => if i in ids then Reimported(rows[i]) else rows[i])
  }

  lemma FindKnown(names: seq<string>, i: nat)
    requires UniqueNames(names) && i < |names|
    ensures FindName(names, names[i]) == Some(i)
  {
  }

  /** With unique keys the first matching row is the only one. */
  lemma FindKnownRow(rows: seq<Translation>, rows': seq<Translation>, i: nat)
    requires i < |rows| == |rows'| && UniqueIn(rows, rows[i].language)
    requires forall k: nat | k < |rows| ::
               rows'[k].language == rows[k].language && rows'[k].group == rows[k].group && rows'[k].key == rows[k].key
    ensures FindRow(rows', rows[i].language, rows[i].group, rows[i].key) == Some(i)
  {
    var r := FindRow(rows', rows[i].language, rows[i].group, rows[i].key);
    assert IsAt(rows'[i], rows[i].language, rows[i].group, rows[i].key);
    var k := r.value;
    assert IsAt(rows[k], rows[i].language, rows[i].group, rows[i].key);
    assert IsAt(rows[i], rows[k].language, rows[k].group, rows[k].key);
  }

  lemma ReimportRow(db: Db, ids: set<nat>, i: nat)
    requires i < |db.rows|
    ensures Updated(db.(rows := ReimportedAt(db.rows, ids)), i, SetContent(Normal(db.rows[i].content)))
         == db.(rows := ReimportedAt(db.rows, ids + {i}))
  {
    var rows := ReimportedAt(db.rows, ids);
    assert Changed(rows[i], SetContent(Normal(db.rows[i].content))) == Reimported(db.rows[i]);
    assert rows[i := Reimported(db.rows[i])] == ReimportedAt(db.rows, ids + {i});
  }

  lemma ReimportFound(d: Db, r: Report, code: string, language: nat, group: string, key: string, c: Content, g: nat, i: nat)
    requires FindName(d.groups, group) == Some(g)
    requires FindRow(d.rows, language, g, key) == Some(i)
    ensures WithGroup(d, group) == d
    ensures ImportEntry(d, r, code, language, group, key, ContentJson(c))
         == (Updated(d, i, SetContent(Normal(c))), r.(updated := r.updated + 1))
  {
    ContentReadBack(c);
  }

  /** Importing the entry of a row updates that row, records no history and creates nothing. */
  lemma ReimportEntry(db: Db, ids: set<nat>, i: nat, r: Report, code: string)
    requires References(db) && i < |db.rows| && UniqueIn(db.rows, db.rows[i].language)
    ensures var d := db.(rows := ReimportedAt(db.rows, ids));
            var e := EntryOf(db, i);
            ImportEntry(WithGroup(d, e.0), r, code, db.rows[i].language, e.0, e.1, e.2)
            == (db.(rows := ReimportedAt(db.rows, ids + {i})), r.(updated := r.updated + 1))
  {
    var d, t := db.(rows := ReimportedAt(db.rows, ids)), db.rows[i];
    FindKnown(db.groups, t.group);
    FindKnownRow(db.rows, d.rows, i);
    ReimportFound(d, r, code, t.language, db.groups[t.group], t.key, t.content, t.group, i);
    ReimportRow(db, ids, i);
  }

  /** The rows an entry list is about. */
  ghost predicate AreEntries(db: Db, language: nat, es: seq<Entry>, at: seq<nat>)
    requires Bounded(db)
  {
    && |at| == |es|
    && forall a | 0 <= a < |es| ::
         at[a] < |db.rows| && db.rows[at[a]].language == language && es[a] == EntryOf(db, at[a])
  }

  function Elements(at: seq<nat>, n: nat): (s: set<nat>)
    requires n <= |at|
    ensures forall i :: i in s <==> i in at[..n]
  {
    if n == 0 then {}
    else
      assert at[..n] == at[..n - 1] + [at[n - 1]];
      Elements(at, n - 1) + {at[n - 1]}
  }

  /** What the first `n` entries leave. */
  function Reached(db: Db, at: seq<nat>, n: nat): (Db, Report)
    requires n <= |at|
  {
    (db.(rows := ReimportedAt(db.rows, Elements(at, n))), Report(0, n, 0, 0))
  }

  lemma FlatStepIs(code: string, language: nat, d: Db, r: Report, e: Entry)
    ensures FlatStep(code, language)((d, r), e)
         == ImportEntry(WithGroup(d, e.0), r, code, language, e.0, e.1, e.2)
  {
  }

  lemma ReachedNext(db: Db, at: seq<nat>, n: nat)
    requires n < |at|
    ensures Reached(db, at, n + 1)
         == (db.(rows := ReimportedAt(db.rows, Elements(at, n) + {at[n]})), Report(0, n + 1, 0, 0))
  {
    hide ReimportedAt;
    assert Elements(at, n + 1) == Elements(at, n) + {at[n]};
  }

  lemma EntryIs(db: Db, language: nat, es: seq<Entry>, at: seq<nat>, a: nat)
    requires Bounded(db) && AreEntries(db, language, es, at) && a < |es|
    ensures |at| == |es| && at[a] < |db.rows| && db.rows[at[a]].language == language && es[a] == EntryOf(db, at[a])
  {
  }

  /** `es` is written by the rows `at`, which an import finds again. */
  ghost predicate Traced(db: Db, language: nat, es: seq<Entry>, at: seq<nat>) {
    References(db) && UniqueIn(db.rows, language) && AreEntries(db, language, es, at)
  }

  lemma ReimportTurn(db: Db, code: string, language: nat, es: seq<Entry>, at: seq<nat>, n: nat)
    requires Traced(db, language, es, at) && n < |at| == |es|
    ensures ImportTurn(Reached(db, at, n), code, language, es[n])
         == Reached(db, at, n + 1)
  {
    EntryIs(db, language, es, at, n);
    hide ImportEntry, AreEntries, References, UniqueIn, EntryOf, WithGroup, ReimportedAt, Elements;
    ReachedNext(db, at, n);
    ReimportEntry(db, Elements(at, n), at[n], Report(0, n, 0, 0), code);
  }

  lemma ReachedNothing(db: Db, at: seq<nat>)
    ensures Reached(db, at, 0) == (db, Report(0, 0, 0, 0))
  {
    assert ReimportedAt(db.rows, {}) == db.rows;
  }

  lemma ImportFlatNext(db: Db, r: Report, code: string, language: nat, es: seq<Entry>, n: nat)
    requires n < |es|
    ensures ImportFlat(db, r, code, language, es, n + 1)
         == ImportTurn(ImportFlat(db, r, code, language, es, n), code, language, es[n])
  {
  }

  lemma ImportFlatNone(db: Db, r: Report, code: string, language: nat, es: seq<Entry>)
    ensures ImportFlat(db, r, code, language, es, 0) == (db, r)
  {
  }

  lemma {:induction false} ReimportFirst(db: Db, code: string, language: nat, es: seq<Entry>, at: seq<nat>, n: nat)
    requires Traced(db, language, es, at) && n <= |es| == |at|
    ensures ImportFlat(db, Report(0, 0, 0, 0), code, language, es, n) == Reached(db, at, n)
  {
    hide Traced, ImportFlat, ImportTurn, Reached;
    if n == 0 {
      ReachedNothing(db, at);
      ImportFlatNone(db, Report(0, 0, 0, 0), code, language, es);
    } else {
      ReimportFirst(db, code, language, es, at, n - 1);
      ImportFlatNext(db, Report(0, 0, 0, 0), code, language, es, n - 1);
      ReimportTurn(db, code, language, es, at, n - 1);
    }
  }

  lemma ReimportFlat(db: Db, code: string, language: nat, es: seq<Entry>, at: seq<nat>)
    requires References(db) && UniqueIn(db.rows, language) && AreEntries(db, language, es, at)
    ensures |at| == |es| && ImportFlat(db, Report(0, 0, 0, 0), code, language, es, |es|) == Reached(db, at, |es|)
  {
    ReimportFirst(db, code, language, es, at, |es|);
  }

  lemma {:induction false} ElementsCount(q: seq<nat>, n: nat)
    requires NoneTwice(q) && n <= |q|
    ensures |Elements(q, n)| == n
  {
    if n > 0 {
      ElementsCount(q, n - 1);
      assert q[n - 1] !in q[..n - 1];
    }
  }

  lemma SameSize(a: set<nat>, b: set<nat>)
    requires a <= b && |a| == |b|
    ensures a == b
  {
    assert b == a + (b - a);
  }

  /** The query of a known language lists rows of that language, all of them up to the limit. */
  lemma QueryIsRows(db: Db, code: string, language: nat, q: seq<nat>)
    requires code != "" && FindName(db.languages, code) == Some(language) && Answers(q, db, code)
    ensures RowsOf(db, q, language) && NoneTwice(q)
    ensures |RowsIn(db.rows, Some(language))| <= 10000 ==>
              forall i: nat | i < |db.rows| && db.rows[i].language == language :: i in q
  {
    var all := RowsIn(db.rows, Some(language));
    if |all| <= 10000 {
      ElementsCount(q, |q|);
      assert q[..|q|] == q;
      SameSize(Elements(q, |q|), all);
      forall i: nat | i < |db.rows| && db.rows[i].language == language
        ensures i in q
      {
        assert i in all;
      }
    }
  }

  ghost predicate OneLanguage(q: seq<nat>, rows: seq<Translation>, language: nat) {
    forall k | 0 <= k < |q| :: q[k] < |rows| && rows[q[k]].language == language
  }

  /** Whatever translations the languages have, exporting `code` gives rows of one language only. */
  ghost predicate Filters(languages: seq<string>, code: string) {
    exists language: nat :: FiltersTo(languages, code, language)
  }

  ghost predicate FiltersTo(languages: seq<string>, code: string, language: nat) {
    forall db: Db, q: seq<nat> | db.languages == languages && Bounded(db) && Answers(q, db, code) ::
      OneLanguage(q, db.rows, language)
  }

  function OneEach(languages: seq<string>): Db
  {
    var content := Content(Some("x"), None, None);
    Db(languages, ["g"], [Translation(0, 0, "k", content, None, None), Translation(1, 0, "k", content, None, None)], [])
  }

  /** With a translation in each of two languages, an empty or unknown code exports both. */
  lemma UnknownCodeExportsBoth(languages: seq<string>, code: string)
    requires |languages| >= 2 && LanguageFilter(OneEach(languages), code) == None
    ensures Bounded(OneEach(languages)) && Answers([0, 1], OneEach(languages), code)
  {
    assert RowsIn(OneEach(languages).rows, None) == {0, 1};
  }

  /** An export is filtered by language if and only if the code is neither empty nor unknown. */
  lemma FiltersExactly(languages: seq<string>, code: string)
    requires |languages| >= 2
    ensures Filters(languages, code) <==> code != "" && FindName(languages, code).Some?
  {
    if code != "" && FindName(languages, code).Some? {
      var language := FindName(languages, code).value;
      forall db: Db, q: seq<nat> | db.languages == languages && Bounded(db) && Answers(q, db, code)
        ensures OneLanguage(q, db.rows, language)
      {
      }
      assert FiltersTo(languages, code, language);
    } else {
      UnknownCodeExportsBoth(languages, code);
      forall language: nat
        ensures !FiltersTo(languages, code, language)
      {
        assert [0, 1][0] == 0 && [0, 1][1] == 1;
        assert !OneLanguage([0, 1], OneEach(languages).rows, language);
      }
    }
  }

  /** The rows behind the entries of an export. */
  lemma {:induction false} Locate(db: Db, q: seq<nat>, language: nat, es: seq<Entry>) returns (at: seq<nat>)
    requires Bounded(db) && RowsOf(db, q, language)
    requires forall e | e in es :: e in EntriesOf(db, q, |q|)
    ensures AreEntries(db, language, es, at) && forall i | i in at :: i in q
  {
    hide EntryOf;
    if es == [] {
      at := [];
    } else {
      at := Locate(db, q, language, es[1..]);
      assert es[0] in EntriesOf(db, q, |q|);
      var k :| 0 <= k < |q| && EntriesOf(db, q, |q|)[k] == es[0];
      at := [q[k]] + at;
    }
  }

  lemma RowOfEntry(db: Db, i: nat, j: nat)
    requires References(db) && i < |db.rows| && j < |db.rows| && UniqueIn(db.rows, db.rows[i].language)
    requires db.rows[i].language == db.rows[j].language && EntryOf(db, i) == EntryOf(db, j)
    ensures i == j
  {
    FindKnown(db.groups, db.rows[i].group);
    FindKnown(db.groups, db.rows[j].group);
    FindKnownRow(db.rows, db.rows, i);
    FindKnownRow(db.rows, db.rows, j);
  }

  /** The rows found behind an export are exactly the rows of the query. */
  lemma LocatedAll(db: Db, q: seq<nat>, language: nat, es: seq<Entry>, at: seq<nat>)
    requires References(db) && UniqueIn(db.rows, language) && RowsOf(db, q, language)
    requires SameEntries(es, EntriesOf(db, q, |q|)) && AreEntries(db, language, es, at)
    requires forall i | i in at :: i in q
    ensures Elements(at, |at|) == Elements(q, |q|)
  {
    hide EntryOf, EntriesOf, UniqueIn, References, AreEntries, RowsOf, SameEntries;
    forall i | i in q
      ensures i in at
    {
      var k :| 0 <= k < |q| && q[k] == i;
      LocatedOne(db, q, language, es, at, k);
    }
    assert at[..|at|] == at && q[..|q|] == q;
  }

  lemma LocatedOne(db: Db, q: seq<nat>, language: nat, es: seq<Entry>, at: seq<nat>, k: nat)
    requires References(db) && UniqueIn(db.rows, language) && RowsOf(db, q, language)
    requires SameEntries(es, EntriesOf(db, q, |q|)) && AreEntries(db, language, es, at)
    requires k < |q|
    ensures q[k] in at
  {
    assert EntriesOf(db, q, |q|)[k] in es;
    var a :| 0 <= a < |es| && es[a] == EntryOf(db, q[k]);
    RowOfEntry(db, q[k], at[a]);
  }

  /** The entries of an export, with the rows they come from. */
  lemma ExportLocated(db: Db, code: string, language: nat, q: seq<nat>) returns (at: seq<nat>)
    requires References(db) && UniqueIn(db.rows, language) && Answers(q, db, code)
    requires code != "" && FindName(db.languages, code) == Some(language)
    ensures var es := Flat(Export(db, q)); NoRepeat(es) && AreEntries(db, language, es, at)
    ensures Elements(at, |at|) == Elements(q, |q|)
    ensures |at| == |q|
  {
    QueryIsRows(db, code, language, q);
    ExportLists(db, q, language);
    var es := Flat(ExportRows(db, q, |q|));
    at := Locate(db, q, language, es);
    LocatedAll(db, q, language, es, at);
  }

  lemma ImportDump(db: Db, code: string, language: nat, doc: Doc)
    requires FindName(db.languages, code) == Some(language)
    requires forall a | 0 <= a < |doc| :: doc[a].1 != []
    ensures Import(db, code, JsonFile(Dump(doc)))
         == Some(ImportFlat(db, Report(0, 0, 0, 0), code, language, Flat(doc), |Flat(doc)|))
  {
    DocIsFlat(db, Report(0, 0, 0, 0), code, language, doc);
  }

  /** Importing a language's own export: each exported row keeps its place and its content, up to
      empty contexts and lists of plural forms, and loses its machine and review marks; every other
      row, the groups and the history stay as they are; all entries count as updated. */
  lemma ImportOwnExport(db: Db, code: string, language: nat, q: seq<nat>)
    requires References(db) && UniqueIn(db.rows, language) && Answers(q, db, code)
    requires code != "" && FindName(db.languages, code) == Some(language)
    ensures Import(db, code, JsonFile(Dump(Export(db, q))))
         == Some((db.(rows := ReimportedAt(db.rows, Elements(q, |q|))), Report(0, |q|, 0, 0)))
  {
    hide ImportEntry, UniqueIn, UniqueNames, NoRepeat;
    var at := ExportLocated(db, code, language, q);
    ExportNonEmpty(db, q, |q|);
    ImportDump(db, code, language, Export(db, q));
    ReimportFlat(db, code, language, Flat(Export(db, q)), at);
  }

  /** Hence in every state reached without an update that sets a key. */
  lemma ReachableImportOwnExport(languages: seq<string>, requests: seq<Runs.Request>, n: nat,
                                 code: string, language: nat, q: seq<nat>)
    requires UniqueNames(languages) && n <= |requests|
    requires forall request | request in requests && request.UpdateOne? :: request.update.key.Unset?
    requires code != "" && FindName(languages, code) == Some(language)
    requires Answers(q, Runs.After(languages, requests, n), code)
    ensures var db := Runs.After(languages, requests, n);
            db.languages == languages && Bounded(db)
            && Import(db, code, JsonFile(Dump(Export(db, q))))
               == Some((db.(rows := ReimportedAt(db.rows, Elements(q, |q|))), Report(0, |q|, 0, 0)))
  {
    var db := Runs.After(languages, requests, n);
    Runs.HistoryReplays(languages, requests, n);
    Runs.KeysStayUnique(languages, requests, n);
    Runs.LanguagesStay(languages, requests, n);
    hide Runs.After, Import, Export, Dump;
    ImportOwnExport(db, code, language, q);
  }

  /** Importing its own export leaves a row's content exactly as it was if and only if the row has no
      empty-string context and no empty list of plural forms. */
  lemma ContentSurvivesExactly(t: Translation)
    ensures Reimported(t).content == t.content
            <==> t.content.context != Some("") && t.content.plurals != Some([])
  {
  }

  // Into an empty language

  /** What a language holds under a group and a key. */
  function Get(db: Db, language: nat, group: string, key: string): Option<Content>
    requires Bounded(db)
  {
    match FindName(db.groups, group)
    case None => None
    case Some(g) =>
      match FindRow(db.rows, language, g, key)
      case None => None
      case Some(i) => Some(db.rows[i].content)
  }

  lemma {:induction false} FindNameAppend(names: seq<string>, new': string, name: string)
    ensures FindName(names + [new'], name)
         == if FindName(names, name).Some? then FindName(names, name)
            else if name == new' then Some(|names|) else None
  {
    if names == [] {
      assert [new'][1..] == [];
    } else {
      assert (names + [new'])[1..] == names[1..] + [new'];
      FindNameAppend(names[1..], new', name);
    }
  }

  lemma {:induction false} FindRowAppend(rows: seq<Translation>, t: Translation, language: nat, g: nat, key: string)
    ensures FindRow(rows + [t], language, g, key)
         == if FindRow(rows, language, g, key).Some? then FindRow(rows, language, g, key)
            else if IsAt(t, language, g, key) then Some(|rows|) else None
  {
    if rows == [] {
      assert [t][1..] == [];
    } else {
      assert (rows + [t])[1..] == rows[1..] + [t];
      FindRowAppend(rows[1..], t, language, g, key);
    }
  }

  /** A new group holds nothing yet. */
  lemma WithGroupGet(db: Db, name: string, language: nat, group: string, key: string)
    requires Bounded(db)
    ensures Bounded(WithGroup(db, name))
    ensures Get(WithGroup(db, name), language, group, key) == Get(db, language, group, key)
  {
    FindNameAppend(db.groups, name, group);
  }

  /** Two group names with one identifier are one name. */
  lemma SameGroup(db: Db, a: string, b: string)
    requires FindName(db.groups, a).Some? && FindName(db.groups, a) == FindName(db.groups, b)
    ensures a == b
  {
  }

  /** Creating what is not there yet adds exactly that. */
  lemma CreateGet(db: Db, code: string, language: nat, group: string, key: string, value: string,
                  context: Option<string>, plurals: Option<seq<PluralForm>>, l: nat, g: string, k: string)
    requires Bounded(db) && FindName(db.languages, code) == Some(language)
    requires FindName(db.groups, group).Some? && Get(db, language, group, key) == None
    ensures var (d, error) := Create(db, code, group, key, value, context, plurals, false, false);
            && error == None && Bounded(d) && d.languages == db.languages
            && Get(d, l, g, k) == if (l, g, k) == (language, group, key)
                                  then Some(Content(Some(value), context, NoEmptyList(plurals)))
                                  else Get(db, l, g, k)
  {
    var gid := FindName(db.groups, group).value;
    var t := Translation(language, gid, key, Content(Some(value), context, NoEmptyList(plurals)), Some(false), Some(false));
    if FindName(db.groups, g).Some? {
      FindRowAppend(db.rows, t, l, FindName(db.groups, g).value, k);
      if FindName(db.groups, g) == FindName(db.groups, group) {
        SameGroup(db, g, group);
      }
    }
  }

  /** An entry list with the contents its entries carry; all values are strings. */
  ghost predicate Carry(es: seq<Entry>, cs: seq<Content>) {
    && |cs| == |es|
    && forall a | 0 <= a < |es| ::
         ReadContent(es[a].2) == Some(cs[a]) && cs[a].value.Some? && cs[a].plurals != Some([])
  }

  /** What the first `n` entries put under a language, a group and a key, on top of `db`. */
  function Added(db: Db, language: nat, es: seq<Entry>, cs: seq<Content>, n: nat, l: nat, g: string, k: string): Option<Content>
    requires Bounded(db) && |cs| == |es| && n <= |es|
  {
    if n == 0 then Get(db, l, g, k)
    else if (l, g, k) == (language, es[n - 1].0, es[n - 1].1) then Some(cs[n - 1])
    else Added(db, language, es, cs, n - 1, l, g, k)
  }

  /** The tables and the report after the first `n` entries. */
  ghost predicate Rebuilt(db: Db, language: nat, es: seq<Entry>, cs: seq<Content>, n: nat, s: (Db, Report))
    requires Bounded(db) && |cs| == |es| && n <= |es|
  {
    && Bounded(s.0) && s.0.languages == db.languages && s.1 == Report(n, 0, 0, 0)
    && forall l, g, k :: Get(s.0, l, g, k) == Added(db, language, es, cs, n, l, g, k)
  }

  lemma {:induction false} AddedFresh(db: Db, language: nat, es: seq<Entry>, cs: seq<Content>, n: nat, m: nat)
    requires Bounded(db) && |cs| == |es| && n <= m < |es| && NoRepeat(es)
    requires Get(db, language, es[m].0, es[m].1) == None
    ensures Added(db, language, es, cs, n, language, es[m].0, es[m].1) == None
  {
    if n > 0 {
      AddedFresh(db, language, es, cs, n - 1, m);
    }
  }

  lemma RebuildTurn(db: Db, code: string, language: nat, es: seq<Entry>, cs: seq<Content>, n: nat, s: (Db, Report))
    requires Bounded(db) && FindName(db.languages, code) == Some(language)
    requires Carry(es, cs) && NoRepeat(es) && n < |es|
    requires Get(db, language, es[n].0, es[n].1) == None
    requires Rebuilt(db, language, es, cs, n, s)
    ensures var e := es[n];
            Rebuilt(db, language, es, cs, n + 1, ImportEntry(WithGroup(s.0, e.0), s.1, code, language, e.0, e.1, e.2))
  {
    hide Get, NoRepeat;
    var e, c := es[n], cs[n];
    AddedFresh(db, language, es, cs, n, n);
    var d := WithGroup(s.0, e.0);
    GroupExists(s.0, e.0);
    WithGroupGet(s.0, e.0, language, e.0, e.1);
    var (d', error) := Create(d, code, e.0, e.1, c.value.value, c.context, c.plurals, false, false);
    assert NoEmptyList(c.plurals) == c.plurals;
    CreateGet(d, code, language, e.0, e.1, c.value.value, c.context, c.plurals, language, e.0, e.1);
    forall l, g, k
      ensures Get(d', l, g, k) == Added(db, language, es, cs, n + 1, l, g, k)
    {
      WithGroupGet(s.0, e.0, l, g, k);
      CreateGet(d, code, language, e.0, e.1, c.value.value, c.context, c.plurals, l, g, k);
    }
  }

  lemma {:induction false} AddedAt(db: Db, language: nat, es: seq<Entry>, cs: seq<Content>, n: nat, a: nat)
    requires Bounded(db) && |cs| == |es| && a < n <= |es| && NoRepeat(es)
    ensures Added(db, language, es, cs, n, language, es[a].0, es[a].1) == Some(cs[a])
  {
    if a < n - 1 {
      AddedAt(db, language, es, cs, n - 1, a);
    }
  }

  lemma {:induction false} AddedElsewhere(db: Db, language: nat, es: seq<Entry>, cs: seq<Content>, n: nat,
                                          l: nat, g: string, k: string)
    requires Bounded(db) && |cs| == |es| && n <= |es|
    requires l != language || Fresh(es, g, k)
    ensures Added(db, language, es, cs, n, l, g, k) == Get(db, l, g, k)
  {
    if n > 0 {
      AddedElsewhere(db, language, es, cs, n - 1, l, g, k);
    }
  }

  /** What a row's language holds under the row's group and key is the row. */
  lemma GetRow(db: Db, i: nat)
    requires References(db) && i < |db.rows| && UniqueIn(db.rows, db.rows[i].language)
    ensures Get(db, db.rows[i].language, EntryOf(db, i).0, EntryOf(db, i).1) == Some(db.rows[i].content)
  {
    FindKnown(db.groups, db.rows[i].group);
    FindKnownRow(db.rows, db.rows, i);
  }

  /** All rows of the language fit into one export. */
  ghost predicate Exports(db: Db, code: string, language: nat) {
    && References(db) && UniqueIn(db.rows, language)
    && code != "" && FindName(db.languages, code) == Some(language)
    && |RowsIn(db.rows, Some(language))| <= 10000
  }

  /** No translation of the language has a null value. */
  ghost predicate AllStrings(db: Db, language: nat) {
    forall i | 0 <= i < |db.rows| && db.rows[i].language == language :: db.rows[i].content.value.Some?
  }

  /** The language exists and has no translations. */
  ghost predicate Vacant(db: Db, code: string, language: nat) {
    && Bounded(db) && FindName(db.languages, code) == Some(language)
    && forall i | 0 <= i < |db.rows| :: db.rows[i].language != language
  }

  /** The contents behind the entries of an export. */
  function ContentsAt(db: Db, at: seq<nat>): (cs: seq<Content>)
    requires forall a | 0 <= a < |at| :: at[a] < |db.rows|
    ensures |cs| == |at| && forall a | 0 <= a < |at| :: cs[a] == Normal(db.rows[at[a]].content)
  {
    seq(|at|, a requires 0 <= a < |at| => Normal(db.rows[at[a]].content))
  }

  lemma CarryAt(db: Db, language: nat, es: seq<Entry>, at: seq<nat>)
    requires Bounded(db) && AreEntries(db, language, es, at) && AllStrings(db, language)
    ensures Carry(es, ContentsAt(db, at))
  {
    forall a | 0 <= a < |es|
      ensures ReadContent(es[a].2) == Some(ContentsAt(db, at)[a])
    {
      ContentReadBack(db.rows[at[a]].content);
    }
  }

  lemma RebuildFlat(db: Db, code: string, language: nat, es: seq<Entry>, cs: seq<Content>)
    requires Vacant(db, code, language) && Carry(es, cs) && NoRepeat(es)
    ensures Rebuilt(db, language, es, cs, |es|, ImportFlat(db, Report(0, 0, 0, 0), code, language, es, |es|))
  {
    hide ImportEntry, Rebuilt;
    var f := FlatStep(code, language);
    var p := (n: nat, s: (Db, Report)) => n <= |es| && Rebuilt(db, language, es, cs, n, s);
    RebuildStart(db, language, es, cs);
    forall a: nat, x: (Db, Report) | a < |es| && p(a, x)
      ensures p(a + 1, f(x, es[a]))
    {
      FlatStepIs(code, language, x.0, x.1, es[a]);
      assert Get(db, language, es[a].0, es[a].1) == None;
      RebuildTurn(db, code, language, es, cs, a, x);
    }
    FoldTracks(f, p, (db, Report(0, 0, 0, 0)), es, |es|);
  }

  lemma RebuildStart(db: Db, language: nat, es: seq<Entry>, cs: seq<Content>)
    requires Bounded(db) && |cs| == |es|
    ensures Rebuilt(db, language, es, cs, 0, (db, Report(0, 0, 0, 0)))
  {
  }

  lemma GotRow(db: Db, language: nat, g: string, k: string) returns (i: nat)
    requires Bounded(db) && Get(db, language, g, k).Some?
    ensures i < |db.rows| && db.rows[i].language == language
    ensures EntryOf(db, i).0 == g && EntryOf(db, i).1 == k
  {
    i := FindRow(db.rows, language, FindName(db.groups, g).value, k).value;
  }

  /** Everything a language holds is in its export. */
  lemma ExportedEntry(db: Db, code: string, language: nat, q: seq<nat>, at: seq<nat>, g: string, k: string) returns (a: nat)
    requires Answers(q, db, code)
    requires Exports(db, code, language) && Get(db, language, g, k).Some?
    requires AreEntries(db, language, Flat(Export(db, q)), at)
    requires Elements(at, |at|) == Elements(q, |q|)
    ensures a < |at| && Flat(Export(db, q))[a].0 == g && Flat(Export(db, q))[a].1 == k
  {
    hide Get, Flat, Export, Answers, EntryOf, Elements, UniqueIn, UniqueNames, FindName;
    var i := GotRow(db, language, g, k);
    QueryIsRows(db, code, language, q);
    assert i in q && q[..|q|] == q && i in Elements(q, |q|);
    assert at[..|at|] == at && i in at;
    a :| 0 <= a < |at| && at[a] == i;
  }

  /** An export adds to an empty language what the exported language holds. */
  lemma AddedIsGet(db: Db, code: string, language: nat, q: seq<nat>, db': Db, language': nat, at: seq<nat>, g: string, k: string)
    requires Answers(q, db, code)
    requires Exports(db, code, language) && Bounded(db') && Get(db', language', g, k) == None
    requires AreEntries(db, language, Flat(Export(db, q)), at) && NoRepeat(Flat(Export(db, q)))
    requires Elements(at, |at|) == Elements(q, |q|)
    ensures var es := Flat(Export(db, q));
            Added(db', language', es, ContentsAt(db, at), |es|, language', g, k)
            == match Get(db, language, g, k) case None => None case Some(c) => Some(Normal(c))
  {
    hide Export, Flat, Get, Added, Elements;
    var es, cs := Flat(Export(db, q)), ContentsAt(db, at);
    if Fresh(es, g, k) {
      AddedElsewhere(db', language', es, cs, |es|, language', g, k);
      if Get(db, language, g, k).Some? {
        var a := ExportedEntry(db, code, language, q, at, g, k);
      }
    } else {
      var a :| 0 <= a < |es| && es[a].0 == g && es[a].1 == k;
      AddedAt(db', language', es, cs, |es|, a);
      GetRow(db, at[a]);
    }
  }

  lemma RebuildExport(db: Db, code: string, language: nat, q: seq<nat>, db': Db, code': string, language': nat, at: seq<nat>)
    requires Answers(q, db, code)
    requires Exports(db, code, language) && AllStrings(db, language) && Vacant(db', code', language')
    requires AreEntries(db, language, Flat(Export(db, q)), at) && NoRepeat(Flat(Export(db, q)))
    ensures var result := Import(db', code', JsonFile(Dump(Export(db, q))));
            var es := Flat(Export(db, q));
            result.Some? && Rebuilt(db', language', es, ContentsAt(db, at), |es|, result.value)
  {
    hide Flat, ImportEntry, UniqueIn, UniqueNames, NoRepeat, Get, Added, Rebuilt, ContentsAt, Carry;
    ExportNonEmpty(db, q, |q|);
    ImportDump(db', code', language', Export(db, q));
    CarryAt(db, language, Flat(Export(db, q)), at);
    RebuildFlat(db', code', language', Flat(Export(db, q)), ContentsAt(db, at));
  }

  /** Importing the export of a language with at most 10000 translations into a language without any
      rebuilds, under each group and key, the same value, context and plural forms (up to empty
      contexts and lists), counts every entry as added, and leaves other languages alone. */
  lemma ImportIntoEmpty(db: Db, code: string, language: nat, q: seq<nat>, db': Db, code': string, language': nat,
                        l: nat, g: string, k: string)
    requires Answers(q, db, code)
    requires Exports(db, code, language) && AllStrings(db, language) && Vacant(db', code', language')
    ensures var result := Import(db', code', JsonFile(Dump(Export(db, q))));
            && result.Some?
            && result.value.1 == Report(|q|, 0, 0, 0)
            && Bounded(result.value.0)
            && Get(result.value.0, l, g, k)
               == if l != language' then Get(db', l, g, k)
                  else match Get(db, language, g, k) case None => None case Some(c) => Some(Normal(c))
  {
    var at := ExportLocated(db, code, language, q);
    NothingYet(db', code', language', g, k);
    hide Import, Export, Flat, Get, Added, UniqueIn, UniqueNames, NoRepeat, Elements, ContentsAt, EntryOf;
    RebuildExport(db, code, language, q, db', code', language', at);
    if l == language' {
      AddedIsGet(db, code, language, q, db', language', at, g, k);
    } else {
      AddedElsewhere(db', language', Flat(Export(db, q)), ContentsAt(db, at), |Flat(Export(db, q))|, l, g, k);
    }
  }

  lemma NothingYet(db: Db, code: string, language: nat, g: string, k: string)
    requires Vacant(db, code, language)
    ensures Get(db, language, g, k) == None
  {
  }
}
