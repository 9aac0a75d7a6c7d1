/** Runs of create, update and import requests: the history of every translation replays to its
    value. */
module TranslationRuns {
  import opened Options
  import opened Folds
  import opened Translations
  import opened TranslationFiles

  // Every import is sound

  lemma EntrySound(db: Db, r: Report, code: string, language: nat, group: string, key: string, j: Json)
    requires Sound(db)
    ensures Sound(ImportEntry(db, r, code, language, group, key, j).0)
  {
    var existing, c := FindRow(db.rows, language, GroupId(db, group), key), ReadContent(j);
    if c.Some? {
      if existing.Some? {
        UpdateSound(db, existing.value, SetContent(c.value));
      } else if c.value.value.Some? {
        CreateSound(db, code, group, key, c.value.value.value, c.value.context, c.value.plurals, false, false);
      }
    }
  }

  lemma GroupSound(db: Db, r: Report, code: string, language: nat, group: string, j: Json)
    requires Sound(db)
    ensures Sound(ImportGroup(db, r, code, language, group, j).0)
  {
    WithGroupSound(db, group);
    if j.JObject? {
      var f, p := EntryStep(code, language, group), (s: (Db, Report)) => Sound(s.0);
      forall a, x: (Db, Report) | 0 <= a < |j.members| && p(x)
        ensures p(f(x, j.members[a]))
      {
        EntrySound(x.0, x.1, code, language, group, j.members[a].0, j.members[a].1);
      }
      FoldKeeps(f, p, (WithGroup(db, group), r), j.members, |j.members|);
    }
  }

  lemma GroupsSound(db: Db, r: Report, code: string, language: nat, doc: seq<(string, Json)>, n: nat)
    requires Sound(db) && n <= |doc|
    ensures Sound(ImportGroups(db, r, code, language, doc, n).0)
  {
    var f, p := GroupStep(code, language), (s: (Db, Report)) => Sound(s.0);
    forall a, x: (Db, Report) | 0 <= a < |doc| && p(x)
      ensures p(f(x, doc[a]))
    {
      GroupSound(x.0, x.1, code, language, doc[a].0, doc[a].1);
    }
    FoldKeeps(f, p, (db, r), doc, n);
  }

  datatype Request =
    | CreateOne(code: string, group: string, key: string, value: string, context: Option<string>,
                plurals: Option<seq<PluralForm>>, machine: bool, review: bool)
    | UpdateOne(id: nat, update: Update)
    | ImportFile(code: string, upload: Upload)

  function Effect(db: Db, request: Request): Db {
    match request
    case CreateOne(code, group, key, value, context, plurals, machine, review) =>
      Create(db, code, group, key, value, context, plurals, machine, review).0
    case UpdateOne(id, update) => Updated(db, id, update)
    case ImportFile(code, upload) =>
      (match Import(db, code, upload) case Some((d, _)) => d case None => db)
  }

  /** The tables after the first `n` requests, starting without groups and translations. */
  function After(languages: seq<string>, requests: seq<Request>, n: nat): Db
    requires n <= |requests|
  {
    if n == 0 then Db(languages, [], [], [])
    else Effect(After(languages, requests, n - 1), requests[n - 1])
  }

  lemma EffectSound(db: Db, request: Request)
    requires Sound(db)
    ensures Sound(Effect(db, request))
  {
    match request
    case CreateOne(code, group, key, value, context, plurals, machine, review) =>
      CreateSound(db, code, group, key, value, context, plurals, machine, review);
    case UpdateOne(id, update) =>
      UpdateSound(db, id, update);
    case ImportFile(code, upload) =>
      var language := FindName(db.languages, code);
      if language.Some? && upload.JsonFile? && upload.doc.JObject? {
        GroupsSound(db, Report(0, 0, 0, 0), code, language.value, upload.doc.members, |upload.doc.members|);
      }
  }

  /** In every state reached by creating, updating and importing, whatever the requests, the history
      of each translation starts from nothing, links up, and ends in its current value. */
  lemma {:induction false} HistoryReplays(languages: seq<string>, requests: seq<Request>, n: nat)
    requires UniqueNames(languages) && n <= |requests|
    ensures Sound(After(languages, requests, n))
  {
    hide Effect;
    if n > 0 {
      HistoryReplays(languages, requests, n - 1);
      EffectSound(After(languages, requests, n - 1), requests[n - 1]);
      assert After(languages, requests, n) == Effect(After(languages, requests, n - 1), requests[n - 1]);
    }
  }

  // Keys stay unique

  lemma UpdateWithoutKey(db: Db, id: nat, u: Update)
    requires UniqueKeys(db.rows) && u.key.Unset?
    ensures UniqueKeys(Updated(db, id, u).rows)
  {
    if id < |db.rows| {
      UpdateKeepsUniqueKeysExactly(db, id, u);
    }
  }

  lemma EntryKeepsKeys(db: Db, r: Report, code: string, language: nat, group: string, key: string, j: Json)
    requires UniqueKeys(db.rows)
    ensures UniqueKeys(ImportEntry(db, r, code, language, group, key, j).0.rows)
  {
    hide UniqueKeys;
    var existing, c := FindRow(db.rows, language, GroupId(db, group), key), ReadContent(j);
    if c.Some? {
      if existing.Some? {
        UpdateWithoutKey(db, existing.value, SetContent(c.value));
      } else if c.value.value.Some? {
        CreateKeepsUniqueKeys(db, code, group, key, c.value.value.value, c.value.context, c.value.plurals, false, false);
      }
    }
  }

  lemma GroupKeepsKeys(db: Db, r: Report, code: string, language: nat, group: string, j: Json)
    requires UniqueKeys(db.rows)
    ensures UniqueKeys(ImportGroup(db, r, code, language, group, j).0.rows)
  {
    if j.JObject? {
      var f, p := EntryStep(code, language, group), (s: (Db, Report)) => UniqueKeys(s.0.rows);
      forall a, x: (Db, Report) | 0 <= a < |j.members| && p(x)
        ensures p(f(x, j.members[a]))
      {
        EntryKeepsKeys(x.0, x.1, code, language, group, j.members[a].0, j.members[a].1);
      }
      FoldKeeps(f, p, (WithGroup(db, group), r), j.members, |j.members|);
    }
  }

  lemma GroupsKeepKeys(db: Db, r: Report, code: string, language: nat, doc: seq<(string, Json)>, n: nat)
    requires UniqueKeys(db.rows) && n <= |doc|
    ensures UniqueKeys(ImportGroups(db, r, code, language, doc, n).0.rows)
  {
    var f, p := GroupStep(code, language), (s: (Db, Report)) => UniqueKeys(s.0.rows);
    forall a, x: (Db, Report) | 0 <= a < |doc| && p(x)
      ensures p(f(x, doc[a]))
    {
      GroupKeepsKeys(x.0, x.1, code, language, doc[a].0, doc[a].1);
    }
    FoldKeeps(f, p, (db, r), doc, n);
  }

  lemma EffectKeepsKeys(db: Db, request: Request)
    requires UniqueKeys(db.rows) && (request.UpdateOne? ==> request.update.key.Unset?)
    ensures UniqueKeys(Effect(db, request).rows)
  {
    match request
    case CreateOne(code, group, key, value, context, plurals, machine, review) =>
      CreateKeepsUniqueKeys(db, code, group, key, value, context, plurals, machine, review);
    case UpdateOne(id, update) =>
      UpdateWithoutKey(db, id, update);
    case ImportFile(code, upload) =>
      var language := FindName(db.languages, code);
      if language.Some? && upload.JsonFile? && upload.doc.JObject? {
        GroupsKeepKeys(db, Report(0, 0, 0, 0), code, language.value, upload.doc.members, |upload.doc.members|);
      }
  }

  /** In every state reached without an update that sets a key, imports of any files included, no two
      translations have the same language, group and key. */
  lemma {:induction false} KeysStayUnique(languages: seq<string>, requests: seq<Request>, n: nat)
    requires n <= |requests|
    requires forall request | request in requests && request.UpdateOne? :: request.update.key.Unset?
    ensures UniqueKeys(After(languages, requests, n).rows)
  {
    hide Effect;
    if n > 0 {
      KeysStayUnique(languages, requests, n - 1);
      assert requests[n - 1] in requests;
      EffectKeepsKeys(After(languages, requests, n - 1), requests[n - 1]);
      assert After(languages, requests, n) == Effect(After(languages, requests, n - 1), requests[n - 1]);
    }
  }

  // Languages stay

  lemma EffectKeepsLanguages(db: Db, request: Request)
    ensures Effect(db, request).languages == db.languages
  {
    match request
    case CreateOne(code, group, key, value, context, plurals, machine, review) =>
    case UpdateOne(id, update) =>
    case ImportFile(code, upload) =>
      if Import(db, code, upload).Some? && upload.JsonFile? && upload.doc.JObject? {
        var language := FindName(db.languages, code).value;
        var f, p := GroupStep(code, language), (s: (Db, Report)) => s.0.languages == db.languages;
        forall a, x: (Db, Report) | 0 <= a < |upload.doc.members| && p(x)
          ensures p(f(x, upload.doc.members[a]))
        {
          GroupKeepsLanguages(x.0, x.1, code, language, upload.doc.members[a].0, upload.doc.members[a].1);
        }
        FoldKeeps(f, p, (db, Report(0, 0, 0, 0)), upload.doc.members, |upload.doc.members|);
      }
  }

  lemma GroupKeepsLanguages(db: Db, r: Report, code: string, language: nat, group: string, j: Json)
    ensures ImportGroup(db, r, code, language, group, j).0.languages == db.languages
  {
    if j.JObject? {
      var f, p := EntryStep(code, language, group), (s: (Db, Report)) => s.0.languages == db.languages;
      forall a, x: (Db, Report) | 0 <= a < |j.members| && p(x)
        ensures p(f(x, j.members[a]))
      {
      }
      FoldKeeps(f, p, (WithGroup(db, group), r), j.members, |j.members|);
    }
  }

  lemma {:induction false} LanguagesStay(languages: seq<string>, requests: seq<Request>, n: nat)
    requires n <= |requests|
    ensures After(languages, requests, n).languages == languages
  {
    hide Effect;
    if n > 0 {
      LanguagesStay(languages, requests, n - 1);
      EffectKeepsLanguages(After(languages, requests, n - 1), requests[n - 1]);
    }
  }
}
