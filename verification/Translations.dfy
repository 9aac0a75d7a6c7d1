/** The translation tables: languages, groups, translations and their change history, with the
    create and update operations of `app/plugins/advanced_i18n/crud.py`. Rows are never deleted
    here, so the identifier of a row is its position in its table. */
module Translations {
  import opened Options

  datatype PluralForm = PluralForm(quantity: string, value: string)

  /** The part of a row an import or export carries. */
  datatype Content = Content(value: Option<string>, context: Option<string>, plurals: Option<seq<PluralForm>>)

  datatype Translation = Translation(
    language: nat,
    group: nat,
    key: string,
    content: Content,
    machine: Option<bool>,
    review: Option<bool>)

  datatype History = History(
    translation: nat,
    languageCode: string,
    key: string,
    oldValue: Option<string>,
    newValue: Option<string>)

  /** Languages by code, groups by name, translations, and the history in insertion order. */
  datatype Db = Db(
    languages: seq<string>,
    groups: seq<string>,
    rows: seq<Translation>,
    history: seq<History>)

  // Lookups

  /** The first position of `name`. */
  function FindName(names: seq<string>, name: string): (r: Option<nat>)
    ensures r.Some? ==> r.value < |names| && names[r.value] == name && name !in names[..r.value]
    ensures r.None? ==> name !in names
  {
    if names == [] then None
    else if names[0] == name then Some(0)
    else
      match FindName(names[1..], name)
      case None => None
      case Some(i) =>
        assert names[..i + 1] == [names[0]] + names[1..][..i];
        Some(i + 1)
  }

  lemma FindAppended(names: seq<string>, name: string)
    requires name !in names
    ensures FindName(names + [name], name) == Some(|names|)
  {
    assert (names + [name])[|names|] == name;
    var i := FindName(names + [name], name).value;
    assert (names + [name])[i] == name;
    assert i < |names| ==> name in names;
  }

  predicate IsAt(t: Translation, language: nat, group: nat, key: string) {
    t.language == language && t.group == group && t.key == key
  }

  /** `get_translation_by_key`: the first matching row. */
  function FindRow(rows: seq<Translation>, language: nat, group: nat, key: string): (r: Option<nat>)
    ensures r.Some? ==> r.value < |rows| && IsAt(rows[r.value], language, group, key)
    ensures r.None? ==> forall i | 0 <= i < |rows| :: !IsAt(rows[i], language, group, key)
  {
    if rows == [] then None
    else if IsAt(rows[0], language, group, key) then Some(0)
    else
      match FindRow(rows[1..], language, group, key)
      case None =>
        assert forall i | 0 < i < |rows| :: rows[i] == rows[1..][i - 1];
        None
      case Some(i) => Some(i + 1)
  }

  // Create and update

  datatype Error = LanguageNotFound | AlreadyExists

  /** `if plural_forms else None`: an empty list is stored as no list. */
  function NoEmptyList(plurals: Option<seq<PluralForm>>): Option<seq<PluralForm>> {
    if plurals == Some([]) then None else plurals
  }

  function WithGroup(db: Db, name: string): Db {
    if FindName(db.groups, name).Some? then db else db.(groups := db.groups + [name])
  }

  /** The identifier of the group `name`, existing or about to be created. */
  function GroupId(db: Db, name: string): nat {
    match FindName(db.groups, name) case Some(g) => g case None => |db.groups|
  }

  /** `add_translation_history` for the row at `id`. */
  function WithHistory(db: Db, id: nat, oldValue: Option<string>, newValue: Option<string>): Db
    requires id < |db.rows|
  {
    var t := db.rows[id];
    var code := if t.language < |db.languages| then db.languages[t.language] else "unknown";
    db.(history := db.history + [History(id, code, t.key, oldValue, newValue)])
  }

  /** `create_translation`: the tables afterwards, and the error if there is one. The value is a
      string, as the request schema demands. */
  function Create(db: Db, code: string, group: string, key: string, value: string, context: Option<string>,
                  plurals: Option<seq<PluralForm>>, machine: bool, review: bool): (Db, Option<Error>)
  {
    match FindName(db.languages, code)
    case None => (db, Some(LanguageNotFound))
    case Some(language) =>
      var d := WithGroup(db, group);
      var g := GroupId(db, group);
      if FindRow(d.rows, language, g, key).Some? then (d, Some(AlreadyExists))
      else
        var t := Translation(language, g, key, Content(Some(value), context, NoEmptyList(plurals)),
                             Some(machine), Some(review));
        (WithHistory(d.(rows := d.rows + [t]), |d.rows|, None, Some(value)), None)
  }

  /** A field of an update request: left out, or given (possibly as null). */
  datatype Change<T> = Unset | Set(value: T)

  datatype Update = Update(
    key: Change<string>,
    value: Change<Option<string>>,
    context: Change<Option<string>>,
    plurals: Change<Option<seq<PluralForm>>>,
    machine: Change<Option<bool>>,
    review: Change<Option<bool>>)

  function Given<T>(c: Change<T>, current: T): T {
    match c case Unset => current case Set(v) => v
  }

  function Changed(t: Translation, u: Update): Translation {
    Translation(t.language, t.group, Given(u.key, t.key),
                Content(Given(u.value, t.content.value), Given(u.context, t.content.context),
                        Given(u.plurals, t.content.plurals)),
                Given(u.machine, t.machine), Given(u.review, t.review))
  }

  /** `update_translation`; an unknown identifier changes nothing. A history record is added when
      the value changed. */
  function Updated(db: Db, id: nat, u: Update): Db {
    if id >= |db.rows| then db
    else
      var t := db.rows[id];
      var d := db.(rows := db.rows[id := Changed(t, u)]);
      if u.value.Set? && u.value.value != t.content.value
      then WithHistory(d, id, t.content.value, u.value.value)
      else d
  }

  // What the tables satisfy

  ghost predicate UniqueNames(names: seq<string>) {
    forall i, j | 0 <= i < j < |names| :: names[i] != names[j]
  }

  ghost predicate Bounded(db: Db) {
    && (forall i | 0 <= i < |db.rows| :: db.rows[i].language < |db.languages| && db.rows[i].group < |db.groups|)
    && (forall j | 0 <= j < |db.history| :: db.history[j].translation < |db.rows|)
  }

  /** Codes and names are unique, and rows refer to rows that exist. */
  ghost predicate References(db: Db) {
    UniqueNames(db.languages) && UniqueNames(db.groups) && Bounded(db)
  }

  /** At most one row per language, group and key. */
  ghost predicate UniqueKeys(rows: seq<Translation>) {
    forall i, j | 0 <= i < j < |rows| :: !IsAt(rows[j], rows[i].language, rows[i].group, rows[i].key)
  }

  /** At most one row per group and key of one language. */
  ghost predicate UniqueIn(rows: seq<Translation>, language: nat) {
    forall i, j | 0 <= i < j < |rows| && rows[i].language == language ::
      !IsAt(rows[j], language, rows[i].group, rows[i].key)
  }

  /** The history of one row, in insertion order. */
  function HistoryOf(history: seq<History>, id: nat): (hs: seq<History>)
    ensures forall h | h in hs :: h in history && h.translation == id
  {
    if history == [] then []
    else
      var last := history[|history| - 1];
      HistoryOf(history[..|history| - 1], id) + if last.translation == id then [last] else []
  }

  /** The records lead from nothing to `current`, each from where the one before it ended, and none
      of them records a change that is no change. */
  ghost predicate Chain(hs: seq<History>, current: Option<string>) {
    && hs != []
    && hs[0].oldValue == None
    && hs[|hs| - 1].newValue == current
    && (forall j | 0 < j < |hs| :: hs[j].oldValue == hs[j - 1].newValue)
    && (forall j | 0 <= j < |hs| :: hs[j].oldValue != hs[j].newValue)
  }

  /** The history of every row replays to its value. */
  ghost predicate Replays(db: Db) {
    forall id: nat | id < |db.rows| :: Chain(HistoryOf(db.history, id), db.rows[id].content.value)
  }

  ghost predicate Sound(db: Db) {
    References(db) && Replays(db)
  }

  lemma HistoryAppend(history: seq<History>, h: History, id: nat)
    ensures HistoryOf(history + [h], id)
         == HistoryOf(history, id) + if h.translation == id then [h] else []
  {
    assert (history + [h])[..|history|] == history;
  }

  lemma {:induction false} NoHistoryYet(history: seq<History>, id: nat)
    requires forall j | 0 <= j < |history| :: history[j].translation != id
    ensures HistoryOf(history, id) == []
  {
    if history != [] {
      NoHistoryYet(history[..|history| - 1], id);
    }
  }

  lemma WithGroupSound(db: Db, name: string)
    requires Sound(db)
    ensures Sound(WithGroup(db, name))
    ensures GroupId(db, name) < |WithGroup(db, name).groups|
    ensures WithGroup(db, name).groups[GroupId(db, name)] == name
  {
  }

  lemma ChainStart(h: History, current: Option<string>)
    requires h.oldValue == None && h.newValue == current && current.Some?
    ensures Chain([h], current)
  {
  }

  /** A new row starts its history. */
  lemma CreateKeepsReplays(db: Db, t: Translation)
    requires Replays(db) && References(db) && t.content.value.Some?
    ensures Replays(WithHistory(db.(rows := db.rows + [t]), |db.rows|, None, t.content.value))
  {
    var d := WithHistory(db.(rows := db.rows + [t]), |db.rows|, None, t.content.value);
    var h := d.history[|db.history|];
    assert d.history == db.history + [h];
    NoHistoryYet(db.history, |db.rows|);
    hide Chain, HistoryOf, UniqueNames;
    forall id: nat | id < |d.rows|
      ensures Chain(HistoryOf(d.history, id), d.rows[id].content.value)
    {
      HistoryAppend(db.history, h, id);
      if id == |db.rows| {
        ChainStart(h, t.content.value);
      } else {
        assert HistoryOf(db.history, id) + [] == HistoryOf(db.history, id);
      }
    }
  }

  lemma CreateSound(db: Db, code: string, group: string, key: string, value: string, context: Option<string>,
                    plurals: Option<seq<PluralForm>>, machine: bool, review: bool)
    requires Sound(db)
    ensures Sound(Create(db, code, group, key, value, context, plurals, machine, review).0)
  {
    hide Replays, UniqueKeys;
    var r := Create(db, code, group, key, value, context, plurals, machine, review);
    var d := WithGroup(db, group);
    WithGroupSound(db, group);
    if r.1.None? {
      CreateKeepsReplays(d, r.0.rows[|d.rows|]);
      assert r.0.rows == d.rows + [r.0.rows[|d.rows|]];
    }
  }

  lemma ChainAppend(hs: seq<History>, current: Option<string>, h: History)
    requires Chain(hs, current) && h.oldValue == current && h.newValue != current
    ensures Chain(hs + [h], h.newValue)
  {
  }

  /** A change of value at row `id`, with its record. */
  lemma RecordedChange(db: Db, id: nat, t: Translation)
    requires Replays(db) && id < |db.rows| && t.content.value != db.rows[id].content.value
    ensures Replays(WithHistory(db.(rows := db.rows[id := t]), id, db.rows[id].content.value, t.content.value))
  {
    var d := WithHistory(db.(rows := db.rows[id := t]), id, db.rows[id].content.value, t.content.value);
    var h := d.history[|db.history|];
    forall i: nat | i < |d.rows|
      ensures Chain(HistoryOf(d.history, i), d.rows[i].content.value)
    {
      assert Chain(HistoryOf(db.history, i), db.rows[i].content.value);
      HistoryAppend(db.history, h, i);
      if i == id {
        ChainAppend(HistoryOf(db.history, i), db.rows[i].content.value, h);
      } else {
        assert HistoryOf(db.history, i) + [] == HistoryOf(db.history, i);
      }
    }
  }

  /** Every update, of whatever fields, keeps the history replayable. */
  lemma UpdateKeepsReplays(db: Db, id: nat, u: Update)
    requires Replays(db)
    ensures Replays(Updated(db, id, u))
  {
    if id < |db.rows| {
      var d, t := Updated(db, id, u), Changed(db.rows[id], u);
      if u.value.Set? && u.value.value != db.rows[id].content.value {
        RecordedChange(db, id, t);
      } else {
        assert forall i: nat | i < |d.rows| :: d.rows[i].content.value == db.rows[i].content.value;
      }
    }
  }

  /** An update keeps (language, group, key) unique exactly when no other row already has the key
      it sets. */
  lemma UpdateKeepsUniqueKeysExactly(db: Db, id: nat, u: Update)
    requires UniqueKeys(db.rows) && id < |db.rows|
    ensures UniqueKeys(Updated(db, id, u).rows)
            <==> forall i | 0 <= i < |db.rows| && i != id ::
                   !IsAt(db.rows[i], db.rows[id].language, db.rows[id].group, Given(u.key, db.rows[id].key))
  {
    var rows, rows' := db.rows, Updated(db, id, u).rows;
    var key := Given(u.key, rows[id].key);
    if i :| 0 <= i < |rows| && i != id && IsAt(rows[i], rows[id].language, rows[id].group, key) {
      var a, b := if i < id then i else id, if i < id then id else i;
      assert IsAt(rows'[b], rows'[a].language, rows'[a].group, rows'[a].key);
    }
  }

  lemma UpdateKeepsReferences(db: Db, id: nat, u: Update)
    requires References(db)
    ensures References(Updated(db, id, u))
  {
  }

  lemma UpdateSound(db: Db, id: nat, u: Update)
    requires Sound(db)
    ensures Sound(Updated(db, id, u))
  {
    UpdateKeepsReplays(db, id, u);
    UpdateKeepsReferences(db, id, u);
  }

  /** Creating never makes a second row for a language, group and key. */
  lemma CreateKeepsUniqueKeys(db: Db, code: string, group: string, key: string, value: string,
                              context: Option<string>, plurals: Option<seq<PluralForm>>, machine: bool, review: bool)
    requires UniqueKeys(db.rows)
    ensures UniqueKeys(Create(db, code, group, key, value, context, plurals, machine, review).0.rows)
  {
  }

  // The tables as objects

  class TranslationStore {
    var languages: seq<string>
    var groups: seq<string>
    var rows: seq<Translation>
    var history: seq<History>

    function Tables(): Db
      reads this
    {
      Db(languages, groups, rows, history)
    }

    constructor (languages: seq<string>)
      ensures Tables() == Db(languages, [], [], [])
    {
      this.languages, groups, rows, history := languages, [], [], [];
    }

    method AddTranslationHistory(id: nat, oldValue: Option<string>, newValue: Option<string>)
      requires id < |rows|
      modifies this`history
      ensures Tables() == WithHistory(old(Tables()), id, oldValue, newValue)
    {
      var code := if rows[id].language < |languages| then languages[rows[id].language] else "unknown";
      history := history + [History(id, code, rows[id].key, oldValue, newValue)];
    }

    /** `get_translation_group_by_name`, then `create_translation_group` if there is none. */
    method GetOrCreateGroup(name: string) returns (g: nat)
      modifies this`groups
      ensures Tables() == WithGroup(old(Tables()), name)
      ensures g == GroupId(old(Tables()), name) && FindName(groups, name) == Some(g)
    {
      var found := FindName(groups, name);
      if found.Some? {
        return found.value;
      }
      FindAppended(groups, name);
      groups := groups + [name];
      g := |groups| - 1;
    }

    method CreateTranslation(code: string, group: string, key: string, value: string, context: Option<string>,
                             plurals: Option<seq<PluralForm>>, machine: bool, review: bool)
      returns (error: Option<Error>)
      modifies this
      ensures (Tables(), error) == Create(old(Tables()), code, group, key, value, context, plurals, machine, review)
    {
      var language := FindName(languages, code);
      if language.None? {
        return Some(LanguageNotFound);
      }
      var g := GetOrCreateGroup(group);
      if FindRow(rows, language.value, g, key).Some? {
        return Some(AlreadyExists);
      }
      var t := Translation(language.value, g, key,
                           Content(Some(value), context, if plurals.Some? && plurals.value != [] then plurals else None),
                           Some(machine), Some(review));
      rows := rows + [t];
      AddTranslationHistory(|rows| - 1, None, Some(value));
      error := None;
    }

    method UpdateTranslation(id: nat, u: Update) returns (found: bool)
      modifies this
      ensures found <==> id < |old(rows)|
      ensures Tables() == Updated(old(Tables()), id, u)
    {
      if id >= |rows| {
        return false;
      }
      var t := rows[id];
      var oldValue := t.content.value;
      if u.key.Set? {
        t := t.(key := u.key.value);
      }
      if u.value.Set? {
        t := t.(content := t.content.(value := u.value.value));
      }
      if u.context.Set? {
        t := t.(content := t.content.(context := u.context.value));
      }
      if u.plurals.Set? {
        t := t.(content := t.content.(plurals := u.plurals.value));
      }
      if u.machine.Set? {
        t := t.(machine := u.machine.value);
      }
      if u.review.Set? {
        t := t.(review := u.review.value);
      }
      rows := rows[id := t];
      if u.value.Set? && u.value.value != oldValue {
        AddTranslationHistory(id, oldValue, u.value.value);
      }
      found := true;
    }
  }
}
