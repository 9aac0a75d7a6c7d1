/** What an import reports and leaves, for every JSON document, in the words of the document and of the
    tables before: no function of the importer is mentioned in the statements. */
module TranslationImport {
  import opened Options
  import opened Folds
  import opened Translations
  import opened TranslationFiles
  import opened TranslationRoundTrip

  // Documents

  ghost predicate NoNameTwice(members: seq<(string, Json)>) {
    forall i, j | 0 <= i < j < |members| :: members[i].0 != members[j].0
  }

  /** Every object names each of its members once, as what `json.loads` returns does. */
  ghost predicate Proper(j: Json) {
    match j
    case JArray(items) => forall i | 0 <= i < |items| :: Proper(items[i])
    case JObject(members) => NoNameTwice(members) && forall i | 0 <= i < |members| :: Proper(members[i].1)
    case _ => true
  }

  predicate Absent(members: seq<(string, Json)>, name: string) {
    forall m | m in members :: m.0 != name
  }

  // What an entry says

  /** A member that may be left out or null, and is a string otherwise. */
  predicate SaysString(members: seq<(string, Json)>, name: string, v: Option<string>) {
    match v
    case None => Absent(members, name) || (name, JNull) in members
    case Some(s) => (name, JString(s)) in members
  }

  /** The value of an object: the empty string if it is left out. */
  predicate SaysValue(members: seq<(string, Json)>, v: Option<string>) {
    if Absent(members, "value") then v == Some("") else SaysString(members, "value", v)
  }

  predicate SaysPlural(j: Json, p: PluralForm) {
    j.JObject? && ("quantity", JString(p.quantity)) in j.members && ("value", JString(p.value)) in j.members
  }

  ghost predicate SaysPlurals(members: seq<(string, Json)>, plurals: Option<seq<PluralForm>>) {
    match plurals
    case None => Absent(members, "plural_forms") || ("plural_forms", JNull) in members
    case Some(ps) => exists items :: ("plural_forms", JArray(items)) in members && ListsPlurals(items, ps)
  }

  ghost predicate ListsPlurals(items: seq<Json>, ps: seq<PluralForm>) {
    |items| == |ps| && forall i | 0 <= i < |ps| :: SaysPlural(items[i], ps[i])
  }

  /** An entry that says `c`: a string or null, or an object with a value, a context and plural forms. */
  ghost predicate Says(j: Json, c: Content) {
    match j
    case JNull => c == Content(None, None, None)
    case JString(s) => c == Content(Some(s), None, None)
    case JObject(members) =>
      SaysValue(members, c.value) && SaysString(members, "context", c.context) && SaysPlurals(members, c.plurals)
    case _ => false
  }

  lemma {:induction false} MemberAbsent(members: seq<(string, Json)>, name: string, default: Json)
    requires Absent(members, name)
    ensures Member(members, name, default) == default
  {
    if members != [] {
      assert members[0] in members;
      MemberAbsent(members[1..], name, default);
    }
  }

  lemma {:induction false} MemberPresent(members: seq<(string, Json)>, name: string, default: Json, i: nat)
    requires NoNameTwice(members) && i < |members| && members[i].0 == name
    ensures Member(members, name, default) == members[i].1
  {
    if i > 0 {
      assert members[0].0 != members[i].0;
      MemberPresent(members[1..], name, default, i - 1);
    }
  }

  /** Looking a name up finds the member that has it. */
  lemma MemberExactly(members: seq<(string, Json)>, name: string, default: Json)
    requires NoNameTwice(members)
    ensures Absent(members, name) ==> Member(members, name, default) == default
    ensures !Absent(members, name) ==>
              forall j :: (name, j) in members <==> j == Member(members, name, default)
  {
    if Absent(members, name) {
      MemberAbsent(members, name, default);
    } else {
      var i :| 0 <= i < |members| && members[i].0 == name;
      MemberPresent(members, name, default, i);
    }
  }

  lemma StringExactly(members: seq<(string, Json)>, name: string, v: Option<string>)
    requires NoNameTwice(members)
    ensures SaysString(members, name, v) <==> ReadString(Member(members, name, JNull)) == Some(v)
  {
    MemberExactly(members, name, JNull);
    hide Member;
  }

  lemma ValueExactly(members: seq<(string, Json)>, v: Option<string>)
    requires NoNameTwice(members)
    ensures SaysValue(members, v) <==> ReadString(Member(members, "value", JString(""))) == Some(v)
  {
    MemberExactly(members, "value", JString(""));
    hide Member;
  }

  lemma PluralExactly(j: Json, p: PluralForm)
    requires Proper(j)
    ensures SaysPlural(j, p) <==> ReadPlural(j) == Some(p)
  {
    if j.JObject? {
      MemberExactly(j.members, "quantity", JNull);
      MemberExactly(j.members, "value", JNull);
      hide Member;
    }
  }

  lemma {:induction false} ListExactly(items: seq<Json>, ps: seq<PluralForm>)
    requires forall i | 0 <= i < |items| :: Proper(items[i])
    ensures ListsPlurals(items, ps) <==> ReadPlurals(items) == Some(ps)
  {
    if items != [] && ps != [] {
      PluralExactly(items[0], ps[0]);
      ListExactly(items[1..], ps[1..]);
      hide SaysPlural, ReadPlural, Proper;
      assert ps == [ps[0]] + ps[1..];
      if ListsPlurals(items[1..], ps[1..]) && SaysPlural(items[0], ps[0]) {
        assert forall i | 0 < i < |ps| :: items[i] == items[1..][i - 1] && ps[i] == ps[1..][i - 1];
      }
    }
  }

  lemma PluralsExactly(members: seq<(string, Json)>, plurals: Option<seq<PluralForm>>)
    requires Proper(JObject(members))
    ensures SaysPlurals(members, plurals) <==> ReadPluralList(Member(members, "plural_forms", JNull)) == Some(plurals)
  {
    MemberExactly(members, "plural_forms", JNull);
    var j := Member(members, "plural_forms", JNull);
    if !Absent(members, "plural_forms") && j.JArray? {
      assert Proper(j);
      if plurals.Some? {
        ListExactly(j.items, plurals.value);
      }
    }
    hide Member, ListsPlurals, ReadPlurals;
  }

  /** Validation accepts an entry exactly when it says something, and takes what it says. */
  lemma SaysExactly(j: Json, c: Content)
    requires Proper(j)
    ensures ReadContent(j) == Some(c) <==> Says(j, c)
  {
    if j.JObject? {
      ValueExactly(j.members, c.value);
      StringExactly(j.members, "context", c.context);
      PluralsExactly(j.members, c.plurals);
    }
    hide Member, ReadPluralList, SaysPlurals, SaysValue, SaysString;
  }

  // What the tables hold

  /** What callers see of a row. */
  datatype Held = Held(content: Content, machine: Option<bool>, review: Option<bool>)

  /** What stands under a language, a group and a key. */
  function HeldAt(db: Db, language: nat, group: string, key: string): Option<Held>
    requires Bounded(db)
  {
    match FindName(db.groups, group)
    case None => None
    case Some(g) =>
      match FindRow(db.rows, language, g, key)
      case None => None
      case Some(i) => Some(Held(db.rows[i].content, db.rows[i].machine, db.rows[i].review))
  }

  /** The entries under the names of a document that hold objects. */
  function Entries(doc: seq<(string, Json)>): seq<Entry> {
    if doc == [] then []
    else Entries(doc[..|doc| - 1]) + EntriesUnder(doc[|doc| - 1])
  }

  function EntriesUnder(m: (string, Json)): seq<Entry> {
    if m.1.JObject? then GroupEntries(m.0, m.1.members) else []
  }

  /** An entry is skipped if it says nothing valid, or nothing but null where no row stands yet. */
  ghost predicate Skipped(db: Db, language: nat, e: Entry)
    requires Bounded(db)
  {
    forall c | Says(e.2, c) :: c.value.None? && HeldAt(db, language, e.0, e.1).None?
  }

  ghost predicate Updates(db: Db, language: nat, e: Entry)
    requires Bounded(db)
  {
    !Skipped(db, language, e) && HeldAt(db, language, e.0, e.1).Some?
  }

  ghost function SkippedAmong(db: Db, language: nat, es: seq<Entry>): set<nat>
    requires Bounded(db)
  {
    set a: nat | a < |es| && Skipped(db, language, es[a])
  }

  ghost function UpdatesAmong(db: Db, language: nat, es: seq<Entry>): set<nat>
    requires Bounded(db)
  {
    set a: nat | a < |es| && Updates(db, language, es[a])
  }

  /** `h` stands where `e` was imported: what stood there if it was skipped, else what it says, marked
      as neither machine translated nor to be reviewed. A new row takes an empty list as no list. */
  ghost predicate Stands(db: Db, language: nat, e: Entry, h: Option<Held>)
    requires Bounded(db)
  {
    var before := HeldAt(db, language, e.0, e.1);
    if Skipped(db, language, e) then h == before
    else
      exists c :: Says(e.2, c)
        && h == Some(Held(if before.Some? then c else c.(plurals := NoEmptyList(c.plurals)), Some(false), Some(false)))
  }

  /** What `es` leaves: every entry stands in its place, all other places hold what they held. */
  ghost predicate Leaves(db: Db, language: nat, es: seq<Entry>, d: Db)
    requires Bounded(db)
  {
    && Bounded(d) && d.languages == db.languages
    && (forall a | 0 <= a < |es| :: Stands(db, language, es[a], HeldAt(d, language, es[a].0, es[a].1)))
    && forall l: nat, g, k | l != language || Fresh(es, g, k) :: HeldAt(d, l, g, k) == HeldAt(db, l, g, k)
  }

  /** What is reported of `es`: every entry once, an error for each that is skipped, and a row more for
      each that is added. */
  ghost predicate Reports(db: Db, language: nat, es: seq<Entry>, d: Db, r: Report)
    requires Bounded(db)
  {
    && r.skipped == |SkippedAmong(db, language, es)|
    && r.errors == r.skipped
    && r.updated == |UpdatesAmong(db, language, es)|
    && r.added + r.updated + r.skipped == |es|
    && |d.rows| == |db.rows| + r.added
  }

  ghost predicate Outcome(db: Db, language: nat, es: seq<Entry>, s: (Db, Report))
    requires Bounded(db)
  {
    Leaves(db, language, es, s.0) && Reports(db, language, es, s.0, s.1)
  }

  // One entry

  /** Only what stands under one group and key may differ. */
  ghost predicate OnlyAt(d: Db, d': Db, language: nat, group: string, key: string)
    requires Bounded(d)
  {
    && Bounded(d') && d'.languages == d.languages
    && forall l: nat, g, k | (l, g, k) != (language, group, key) :: HeldAt(d', l, g, k) == HeldAt(d, l, g, k)
  }

  lemma {:induction false} SameKeysSameRow(rows: seq<Translation>, rows': seq<Translation>, l: nat, g: nat, k: string)
    requires |rows| == |rows'|
    requires forall i | 0 <= i < |rows| ::
               rows'[i].language == rows[i].language && rows'[i].group == rows[i].group && rows'[i].key == rows[i].key
    ensures FindRow(rows', l, g, k) == FindRow(rows, l, g, k)
  {
    if rows != [] {
      SameKeysSameRow(rows[1..], rows'[1..], l, g, k);
    }
  }

  lemma UpdatedElsewhere(d: Db, language: nat, group: string, key: string, c: Content, i: nat,
                         l: nat, g: string, k: string)
    requires Bounded(d) && FindName(d.groups, group).Some? && (l, g, k) != (language, group, key)
    requires FindRow(d.rows, language, FindName(d.groups, group).value, key) == Some(i)
    ensures Bounded(Updated(d, i, SetContent(c)))
    ensures HeldAt(Updated(d, i, SetContent(c)), l, g, k) == HeldAt(d, l, g, k)
  {
    if FindName(d.groups, g).Some? {
      SameKeysSameRow(d.rows, Updated(d, i, SetContent(c)).rows, l, FindName(d.groups, g).value, k);
      if FindName(d.groups, g) == FindName(d.groups, group) {
        SameGroup(d, g, group);
      }
    }
  }

  /** Setting the content of the row that is found. */
  lemma UpdateHeld(d: Db, language: nat, group: string, key: string, c: Content, i: nat)
    requires Bounded(d) && FindName(d.groups, group).Some?
    requires FindRow(d.rows, language, FindName(d.groups, group).value, key) == Some(i)
    ensures var d' := Updated(d, i, SetContent(c));
            && OnlyAt(d, d', language, group, key) && |d'.rows| == |d.rows|
            && HeldAt(d', language, group, key) == Some(Held(c, Some(false), Some(false)))
  {
    var d' := Updated(d, i, SetContent(c));
    SameKeysSameRow(d.rows, d'.rows, language, FindName(d.groups, group).value, key);
    assert Bounded(d') && HeldAt(d', language, group, key) == Some(Held(c, Some(false), Some(false)));
    hide HeldAt, FindRow, FindName;
    forall l: nat, g, k | (l, g, k) != (language, group, key)
      ensures HeldAt(d', l, g, k) == HeldAt(d, l, g, k)
    {
      UpdatedElsewhere(d, language, group, key, c, i, l, g, k);
    }
  }

  lemma CreatedElsewhere(d: Db, language: nat, group: string, t: Translation, l: nat, g: string, k: string)
    requires Bounded(d) && FindName(d.groups, group) == Some(t.group) && t.language < |d.languages|
    requires (l, g, k) != (t.language, group, t.key)
    ensures HeldAt(d.(rows := d.rows + [t]), l, g, k) == HeldAt(d, l, g, k)
  {
    if FindName(d.groups, g).Some? {
      FindRowAppend(d.rows, t, l, FindName(d.groups, g).value, k);
      if FindName(d.groups, g) == FindName(d.groups, group) {
        SameGroup(d, g, group);
      }
    }
  }

  /** Creating a row where none stands. */
  lemma CreateHeld(d: Db, code: string, language: nat, group: string, key: string, v: string,
                   context: Option<string>, plurals: Option<seq<PluralForm>>)
    requires Bounded(d) && FindName(d.languages, code) == Some(language)
    requires FindName(d.groups, group).Some? && HeldAt(d, language, group, key) == None
    ensures var (d', error) := Create(d, code, group, key, v, context, plurals, false, false);
            && error == None && OnlyAt(d, d', language, group, key) && |d'.rows| == |d.rows| + 1
            && HeldAt(d', language, group, key)
               == Some(Held(Content(Some(v), context, NoEmptyList(plurals)), Some(false), Some(false)))
  {
    var gid := FindName(d.groups, group).value;
    var t := Translation(language, gid, key, Content(Some(v), context, NoEmptyList(plurals)), Some(false), Some(false));
    FindRowAppend(d.rows, t, language, gid, key);
    var d' := Create(d, code, group, key, v, context, plurals, false, false).0;
    assert Bounded(d') && d'.groups == d.groups && d'.rows == d.rows + [t];
    assert HeldAt(d', language, group, key) == Some(Held(t.content, Some(false), Some(false)));
    forall l: nat, g, k | (l, g, k) != (language, group, key)
      ensures HeldAt(d', l, g, k) == HeldAt(d, l, g, k)
    {
      CreatedElsewhere(d, language, group, t, l, g, k);
    }
  }

  /** What happened to one entry, in the report as well. */
  ghost predicate Handled(db: Db, language: nat, e: Entry, s: (Db, Report), s': (Db, Report))
    requires Bounded(db) && Bounded(s.0)
  {
    var (d, r) := s;
    var (d', r') := s';
    && OnlyAt(d, d', language, e.0, e.1)
    && Stands(db, language, e, HeldAt(d', language, e.0, e.1))
    && if Skipped(db, language, e) then
         r' == r.(skipped := r.skipped + 1, errors := r.errors + 1) && |d'.rows| == |d.rows|
       else if Updates(db, language, e) then
         r' == r.(updated := r.updated + 1) && |d'.rows| == |d.rows|
       else
         r' == r.(added := r.added + 1) && |d'.rows| == |d.rows| + 1
  }

  /** An entry that validation refuses, or that is null where no row stands. */
  lemma SkipHandled(db: Db, language: nat, s: (Db, Report), e: Entry)
    requires Bounded(db) && Bounded(s.0) && Proper(e.2)
    requires HeldAt(s.0, language, e.0, e.1) == HeldAt(db, language, e.0, e.1)
    requires match ReadContent(e.2)
             case None => true
             case Some(c) => c.value.None? && HeldAt(db, language, e.0, e.1).None?
    ensures Handled(db, language, e, s, (s.0, Skip(s.1)))
  {
    forall c
      ensures ReadContent(e.2) == Some(c) <==> Says(e.2, c)
    {
      SaysExactly(e.2, c);
    }
    hide Says, ReadContent, HeldAt, Proper;
  }

  /** An entry that is stored, into the row that stands there or into a new one. */
  lemma StoreHandled(db: Db, language: nat, s: (Db, Report), e: Entry, c: Content, d: Db, r: Report)
    requires Bounded(db) && Bounded(s.0) && Proper(e.2)
    requires HeldAt(s.0, language, e.0, e.1) == HeldAt(db, language, e.0, e.1)
    requires ReadContent(e.2) == Some(c) && OnlyAt(s.0, d, language, e.0, e.1)
    requires if HeldAt(db, language, e.0, e.1).Some? then
               && HeldAt(d, language, e.0, e.1) == Some(Held(c, Some(false), Some(false)))
               && |d.rows| == |s.0.rows| && r == s.1.(updated := s.1.updated + 1)
             else
               && c.value.Some?
               && HeldAt(d, language, e.0, e.1)
                  == Some(Held(c.(plurals := NoEmptyList(c.plurals)), Some(false), Some(false)))
               && |d.rows| == |s.0.rows| + 1 && r == s.1.(added := s.1.added + 1)
    ensures Handled(db, language, e, s, (d, r))
  {
    SaysExactly(e.2, c);
    assert !Skipped(db, language, e);
    hide Says, ReadContent, HeldAt, Proper, Skipped, OnlyAt, NoEmptyList;
  }

  /** An entry whose place holds what it held at first. */
  lemma EntryHandled(db: Db, code: string, language: nat, s: (Db, Report), e: Entry)
    requires Bounded(db) && Bounded(s.0) && Proper(e.2)
    requires FindName(s.0.languages, code) == Some(language) && FindName(s.0.groups, e.0).Some?
    requires HeldAt(s.0, language, e.0, e.1) == HeldAt(db, language, e.0, e.1)
    ensures Handled(db, language, e, s, ImportEntry(s.0, s.1, code, language, e.0, e.1, e.2))
  {
    var d, read := s.0, ReadContent(e.2);
    var (d', r') := ImportEntry(d, s.1, code, language, e.0, e.1, e.2);
    var found := FindRow(d.rows, language, GroupId(d, e.0), e.1);
    assert found.Some? <==> HeldAt(d, language, e.0, e.1).Some?;
    hide FindRow, FindName, ReadContent, Bounded, Handled, Proper, HeldAt, Create, Updated, OnlyAt;
    if read.None? || (read.value.value.None? && found.None?) {
      SkipHandled(db, language, s, e);
    } else if found.Some? {
      UpdateHeld(d, language, e.0, e.1, read.value, found.value);
      StoreHandled(db, language, s, e, read.value, d', r');
    } else {
      var c := read.value;
      CreateHeld(d, code, language, e.0, e.1, c.value.value, c.context, c.plurals);
      StoreHandled(db, language, s, e, c, d', r');
    }
  }

  // All entries

  lemma LeavesNext(db: Db, language: nat, es: seq<Entry>, s: (Db, Report), e: Entry, s': (Db, Report))
    requires Bounded(db) && Leaves(db, language, es, s.0) && Fresh(es, e.0, e.1)
    requires Handled(db, language, e, s, s')
    ensures Leaves(db, language, es + [e], s'.0)
  {
    hide HeldAt, Skipped, Updates, Stands, Bounded;
    var all := es + [e];
    forall a | 0 <= a < |all|
      ensures Stands(db, language, all[a], HeldAt(s'.0, language, all[a].0, all[a].1))
    {
      assert a < |es| ==> all[a] == es[a];
    }
    forall l: nat, g, k | l != language || Fresh(all, g, k)
      ensures HeldAt(s'.0, l, g, k) == HeldAt(db, l, g, k)
    {
      if l == language {
        assert all[|es|] == e;
        FreshParts(es, [e], g, k);
      }
    }
  }

  lemma SkippedNext(db: Db, language: nat, es: seq<Entry>, e: Entry)
    requires Bounded(db)
    ensures |SkippedAmong(db, language, es + [e])|
         == |SkippedAmong(db, language, es)| + if Skipped(db, language, e) then 1 else 0
  {
    hide Skipped;
    assert SkippedAmong(db, language, es + [e])
        == SkippedAmong(db, language, es) + if Skipped(db, language, e) then {|es|} else {};
  }

  lemma UpdatesNext(db: Db, language: nat, es: seq<Entry>, e: Entry)
    requires Bounded(db)
    ensures |UpdatesAmong(db, language, es + [e])|
         == |UpdatesAmong(db, language, es)| + if Updates(db, language, e) then 1 else 0
  {
    hide Updates;
    assert UpdatesAmong(db, language, es + [e])
        == UpdatesAmong(db, language, es) + if Updates(db, language, e) then {|es|} else {};
  }

  lemma ReportsNext(db: Db, language: nat, es: seq<Entry>, s: (Db, Report), e: Entry, s': (Db, Report))
    requires Bounded(db) && Bounded(s.0) && Reports(db, language, es, s.0, s.1)
    requires Handled(db, language, e, s, s')
    ensures Reports(db, language, es + [e], s'.0, s'.1)
  {
    SkippedNext(db, language, es, e);
    UpdatesNext(db, language, es, e);
    hide HeldAt, Skipped, Stands, OnlyAt, Bounded, SkippedAmong, UpdatesAmong;
  }

  /** The next entry, when its group is there. */
  lemma EntryTurn(db: Db, code: string, language: nat, es: seq<Entry>, s: (Db, Report), e: Entry)
    requires Bounded(db) && Outcome(db, language, es, s) && Fresh(es, e.0, e.1) && Proper(e.2)
    requires FindName(db.languages, code) == Some(language) && FindName(s.0.groups, e.0).Some?
    ensures Outcome(db, language, es + [e], ImportEntry(s.0, s.1, code, language, e.0, e.1, e.2))
  {
    EntryHandled(db, code, language, s, e);
    hide Handled, Fresh, Proper, HeldAt, FindName, Bounded, Stands;
    var s' := ImportEntry(s.0, s.1, code, language, e.0, e.1, e.2);
    LeavesNext(db, language, es, s, e, s');
    ReportsNext(db, language, es, s, e, s');
  }

  /** The members of an object that are no entries yet. */
  ghost predicate NewMembers(es: seq<Entry>, group: string, members: seq<(string, Json)>) {
    && Proper(JObject(members))
    && forall b | 0 <= b < |members| :: Fresh(es, group, members[b].0)
  }

  lemma NextMember(es: seq<Entry>, group: string, members: seq<(string, Json)>, n: nat)
    requires NewMembers(es, group, members) && n < |members|
    ensures var before := es + GroupEntries(group, members)[..n];
            && Fresh(before, group, members[n].0) && Proper(members[n].1)
            && es + GroupEntries(group, members)[..n + 1] == before + [(group, members[n].0, members[n].1)]
  {
    var before, all := es + GroupEntries(group, members)[..n], GroupEntries(group, members);
    assert all[..n + 1] == all[..n] + [all[n]];
    forall a | 0 <= a < |before|
      ensures !(before[a].0 == group && before[a].1 == members[n].0)
    {
      if a < |es| {
        assert before[a] == es[a];
      } else {
        assert before[a] == all[a - |es|];
      }
    }
  }

  /** The members of one group that is there. */
  lemma {:induction false} MembersTurn(db: Db, code: string, language: nat, es: seq<Entry>, s: (Db, Report),
                                       group: string, members: seq<(string, Json)>, n: nat)
    requires Bounded(db) && Outcome(db, language, es, s) && NewMembers(es, group, members) && n <= |members|
    requires FindName(db.languages, code) == Some(language) && FindName(s.0.groups, group).Some?
    ensures Outcome(db, language, es + GroupEntries(group, members)[..n],
                    ImportEntries(s.0, s.1, code, language, group, members, n))
  {
    hide Outcome, ImportEntry, NewMembers, FindName, Bounded;
    if n == 0 {
      assert es + GroupEntries(group, members)[..0] == es;
    } else {
      MembersTurn(db, code, language, es, s, group, members, n - 1);
      NextMember(es, group, members, n - 1);
      GroupStays(s.0, s.1, code, language, group, members, n - 1);
      var t, m := ImportEntries(s.0, s.1, code, language, group, members, n - 1), members[n - 1];
      EntryTurn(db, code, language, es + GroupEntries(group, members)[..n - 1], t, (group, m.0, m.1));
    }
  }

  /** Creating a group changes nothing that is held. */
  lemma GroupOpened(db: Db, language: nat, es: seq<Entry>, s: (Db, Report), name: string)
    requires Bounded(db) && Outcome(db, language, es, s)
    ensures Outcome(db, language, es, (WithGroup(s.0, name), s.1))
  {
    var d := WithGroup(s.0, name);
    forall l: nat, g, k
      ensures HeldAt(d, l, g, k) == HeldAt(s.0, l, g, k)
    {
      FindNameAppend(s.0.groups, name, g);
    }
    hide HeldAt, Stands, Skipped, Updates, FindName;
  }

  lemma EntriesNext(doc: seq<(string, Json)>, n: nat)
    requires n < |doc|
    ensures Entries(doc[..n + 1]) == Entries(doc[..n]) + EntriesUnder(doc[n])
  {
    assert doc[..n + 1][..n] == doc[..n];
  }

  lemma {:induction false} EntriesNamed(doc: seq<(string, Json)>, n: nat)
    requires n <= |doc|
    ensures forall e | e in Entries(doc[..n]) :: exists a :: 0 <= a < n && e.0 == doc[a].0
  {
    if n > 0 {
      EntriesNamed(doc, n - 1);
      EntriesNext(doc, n - 1);
    }
  }

  lemma NextGroup(doc: seq<(string, Json)>, n: nat)
    requires Proper(JObject(doc)) && n < |doc| && doc[n].1.JObject?
    ensures NewMembers(Entries(doc[..n]), doc[n].0, doc[n].1.members)
  {
    EntriesNamed(doc, n);
  }

  /** The whole document. */
  lemma {:induction false} DocTurn(db: Db, code: string, language: nat, doc: seq<(string, Json)>, n: nat)
    requires Bounded(db) && FindName(db.languages, code) == Some(language) && Proper(JObject(doc)) && n <= |doc|
    ensures Outcome(db, language, Entries(doc[..n]), ImportGroups(db, Report(0, 0, 0, 0), code, language, doc, n))
  {
    var s := ImportGroups(db, Report(0, 0, 0, 0), code, language, doc, n);
    if n == 0 {
      assert SkippedAmong(db, language, []) == {} && UpdatesAmong(db, language, []) == {};
      hide HeldAt, Stands, FindName, Proper;
    } else {
      hide Outcome, FindName, Proper, Bounded, NewMembers, ImportEntries;
      DocTurn(db, code, language, doc, n - 1);
      var (d, r) := ImportGroups(db, Report(0, 0, 0, 0), code, language, doc, n - 1);
      var (group, j) := doc[n - 1];
      var es := Entries(doc[..n - 1]);
      GroupOpened(db, language, es, (d, r), group);
      EntriesNext(doc, n - 1);
      if j.JObject? {
        NextGroup(doc, n - 1);
        GroupExists(d, group);
        MembersTurn(db, code, language, es, (WithGroup(d, group), r), group, j.members, |j.members|);
        assert GroupEntries(group, j.members)[..|j.members|] == GroupEntries(group, j.members);
      } else {
        assert es + [] == es;
      }
    }
  }

  /** Importing a JSON object into a known language, whatever it holds: what stands where afterwards, and
      the report. */
  lemma ImportOutcome(db: Db, code: string, language: nat, doc: seq<(string, Json)>)
    requires Bounded(db) && FindName(db.languages, code) == Some(language) && Proper(JObject(doc))
    ensures var result := Import(db, code, JsonFile(JObject(doc)));
            result.Some? && Outcome(db, language, Entries(doc), result.value)
  {
    DocTurn(db, code, language, doc, |doc|);
    assert doc[..|doc|] == doc;
    hide Outcome;
  }

  // Groups, and files that are no objects

  /** The groups that were there, then those the document names, whatever stands under them. */
  ghost predicate GroupsOf(db: Db, doc: seq<(string, Json)>, d: Db) {
    db.groups <= d.groups && forall name :: name in d.groups <==> name in db.groups || !Absent(doc, name)
  }

  lemma GroupsNext(db: Db, doc: seq<(string, Json)>, d: Db, m: (string, Json), d': Db)
    requires GroupsOf(db, doc, d) && d'.groups == WithGroup(d, m.0).groups
    ensures GroupsOf(db, doc + [m], d')
  {
    forall name
      ensures name in d'.groups <==> name in db.groups || !Absent(doc + [m], name)
    {
      assert Absent(doc + [m], name) <==> Absent(doc, name) && m.0 != name by {
        assert (doc + [m])[|doc|] == m;
      }
      assert name in WithGroup(d, m.0).groups <==> name in d.groups || name == m.0;
    }
  }

  lemma {:induction false} ImportNamesGroups(db: Db, code: string, language: nat, doc: seq<(string, Json)>, n: nat)
    requires n <= |doc|
    ensures GroupsOf(db, doc[..n], ImportGroups(db, Report(0, 0, 0, 0), code, language, doc, n).0)
  {
    if n > 0 {
      ImportNamesGroups(db, code, language, doc, n - 1);
      var (d, r) := ImportGroups(db, Report(0, 0, 0, 0), code, language, doc, n - 1);
      var m := doc[n - 1];
      GroupExists(d, m.0);
      if m.1.JObject? {
        GroupStays(WithGroup(d, m.0), r, code, language, m.0, m.1.members, |m.1.members|);
      }
      hide GroupsOf, FindName;
      GroupsNext(db, doc[..n - 1], d, m, ImportGroups(db, Report(0, 0, 0, 0), code, language, doc, n).0);
      assert doc[..n] == doc[..n - 1] + [m];
    }
  }

  /** An import of a JSON object creates every group it names and no other. */
  lemma ImportedGroups(db: Db, code: string, doc: seq<(string, Json)>)
    requires code in db.languages
    ensures var result := Import(db, code, JsonFile(JObject(doc)));
            result.Some? && GroupsOf(db, doc, result.value.0)
  {
    ImportNamesGroups(db, code, FindName(db.languages, code).value, doc, |doc|);
    assert doc[..|doc|] == doc;
  }

  /** A file that is not a JSON object is one error and changes nothing; an unknown language is the 404. */
  lemma ImportRefuses(db: Db, code: string, upload: Upload)
    ensures Import(db, code, upload) == None <==> code !in db.languages
    ensures code in db.languages && !(upload.JsonFile? && upload.doc.JObject?) ==>
              Import(db, code, upload) == Some((db, Report(0, 0, 0, 1)))
  {
  }

  /** The file `{"common": {"n": 5}}`: nothing is stored, one entry is skipped, with its error. */
  lemma NumberIsSkipped(code: string)
    ensures var db := Db([code], [], [], []);
            Import(db, code, JsonFile(JObject([("common", JObject([("n", JNumber(5))]))])))
            == Some((Db([code], ["common"], [], []), Report(0, 0, 1, 1)))
  {
    var db, doc, ms := Db([code], [], [], []), [("common", JObject([("n", JNumber(5))]))], [("n", JNumber(5))];
    var d := WithGroup(db, "common");
    assert d == Db([code], ["common"], [], []);
    var zero := Report(0, 0, 0, 0);
    assert ReadContent(JNumber(5)) == None;
    assert ImportEntries(d, zero, code, 0, "common", ms, 0) == (d, zero);
    assert ImportEntries(d, zero, code, 0, "common", ms, 1) == (d, Report(0, 0, 1, 1));
    assert ImportGroups(db, zero, code, 0, doc, 0) == (db, zero);
    assert ImportGroups(db, zero, code, 0, doc, 1) == (d, Report(0, 0, 1, 1));
  }
}
