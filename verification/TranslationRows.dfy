/** What creating and updating a translation leaves in the tables, field by field. */
module TranslationRows {
  import opened Options
  import opened Translations
  import opened TranslationRoundTrip

  /** A field after a request that gives `c` for it: the given value, or the old one. */
  predicate Becomes<T(==)>(before: T, c: Change<T>, after: T) {
    match c case Unset => after == before case Set(v) => after == v
  }

  /** `d` extends the history of `db` by `more`; nothing else but rows may differ. */
  predicate Records(db: Db, more: seq<History>, d: Db) {
    d.languages == db.languages && d.history == db.history + more
  }

  /** An update sets the fields that are given and keeps the others, the language and the group, leaves all
      other rows, and records a value that is given and differs, with the key that stands afterwards. */
  lemma UpdateExactly(db: Db, id: nat, u: Update)
    requires id < |db.rows|
    ensures var d := Updated(db, id, u);
            var t, t' := db.rows[id], d.rows[id];
            var code := if t.language < |db.languages| then db.languages[t.language] else "unknown";
            && |d.rows| == |db.rows| && d.groups == db.groups
            && (forall i | 0 <= i < |db.rows| && i != id :: d.rows[i] == db.rows[i])
            && t'.language == t.language && t'.group == t.group && Becomes(t.key, u.key, t'.key)
            && Becomes(t.content.value, u.value, t'.content.value)
            && Becomes(t.content.context, u.context, t'.content.context)
            && Becomes(t.content.plurals, u.plurals, t'.content.plurals)
            && Becomes(t.machine, u.machine, t'.machine) && Becomes(t.review, u.review, t'.review)
            && Records(db, if t'.content.value == t.content.value then []
                           else [History(id, code, t'.key, t.content.value, t'.content.value)], d)
  {
  }

  /** A row with this language code, group name and key. */
  ghost predicate Stands(db: Db, code: string, group: string, key: string, i: nat)
    requires Bounded(db)
  {
    i < |db.rows| && db.languages[db.rows[i].language] == code && db.groups[db.rows[i].group] == group
    && db.rows[i].key == key
  }

  ghost predicate Taken(db: Db, code: string, group: string, key: string)
    requires Bounded(db)
  {
    exists i: nat :: Stands(db, code, group, key, i)
  }

  lemma TakenExactly(db: Db, language: nat, group: string, key: string)
    requires References(db) && language < |db.languages|
    ensures FindRow(WithGroup(db, group).rows, language, GroupId(db, group), key).Some?
       <==> Taken(db, db.languages[language], group, key)
  {
    var found := FindRow(db.rows, language, GroupId(db, group), key);
    if found.Some? {
      assert Stands(db, db.languages[language], group, key, found.value);
    }
    if i: nat :| Stands(db, db.languages[language], group, key, i) {
      FindKnown(db.languages, language);
      FindKnown(db.languages, db.rows[i].language);
      FindKnown(db.groups, db.rows[i].group);
      assert IsAt(db.rows[i], language, GroupId(db, group), key);
    }
  }

  /** The group is there afterwards, behind those that were. */
  predicate HasGroup(db: Db, group: string, d: Db) {
    d.groups == if group in db.groups then db.groups else db.groups + [group]
  }

  /** A create fails on an unknown language, changing nothing, and on a row with the same language, group
      and key, leaving at most the group behind. Otherwise it appends one row with what is given, an empty
      list of plural forms as none, and one record. */
  lemma CreateExactly(db: Db, code: string, group: string, key: string, value: string, context: Option<string>,
                      plurals: Option<seq<PluralForm>>, machine: bool, review: bool)
    requires References(db)
    ensures var (d, error) := Create(db, code, group, key, value, context, plurals, machine, review);
            && (error == Some(LanguageNotFound) <==> code !in db.languages)
            && (error == Some(AlreadyExists) <==> code in db.languages && Taken(db, code, group, key))
            && (error == Some(LanguageNotFound) ==> d == db)
            && (error == Some(AlreadyExists) ==> d.rows == db.rows && HasGroup(db, group, d) && Records(db, [], d))
            && (error == None ==>
                  && HasGroup(db, group, d) && References(d) && |d.rows| == |db.rows| + 1 && db.rows < d.rows
                  && Stands(d, code, group, key, |db.rows|)
                  && d.rows[|db.rows|].content
                     == Content(Some(value), context, if plurals == Some([]) then None else plurals)
                  && d.rows[|db.rows|].machine == Some(machine) && d.rows[|db.rows|].review == Some(review)
                  && Records(db, [History(|db.rows|, code, key, None, Some(value))], d))
  {
    var found := FindName(db.languages, code);
    if found.Some? {
      TakenExactly(db, found.value, group, key);
      WithGroupNames(db, group);
      hide FindName, FindRow, UniqueNames, Taken;
    }
  }

  lemma WithGroupNames(db: Db, group: string)
    requires References(db)
    ensures References(WithGroup(db, group)) && HasGroup(db, group, WithGroup(db, group))
    ensures WithGroup(db, group) == db.(groups := WithGroup(db, group).groups)
    ensures GroupId(db, group) < |WithGroup(db, group).groups|
    ensures WithGroup(db, group).groups[GroupId(db, group)] == group
  {
    var found := FindName(db.groups, group);
    if found.Some? {
      assert db.groups[found.value] in db.groups;
    }
  }
}
