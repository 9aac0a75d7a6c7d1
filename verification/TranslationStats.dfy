/** Statistics per language (`get_translation_stats`) and the list of missing keys
    (`get_missing_translations`). */
module TranslationStats {
  import opened Options
  import opened Translations

  datatype Language = Language(code: string, name: string)

  datatype Statistics = Statistics(
    languageCode: string,
    languageName: string,
    totalKeys: nat,
    translatedKeys: nat,
    missingKeys: int,
    needsReview: nat,
    completion: real)

  /** `SELECT DISTINCT key`. */
  function Keys(rows: seq<Translation>): set<string> {
    set t | t in rows :: t.key
  }

  function KeysOf(rows: seq<Translation>, language: nat): set<string> {
    set t | t in rows && t.language == language :: t.key
  }

  function KeysToReview(rows: seq<Translation>, language: nat): set<string> {
    set t | t in rows && t.language == language && t.review == Some(true) :: t.key
  }

  /** `get_missing_translations`: all keys minus the keys of the language. */
  function MissingKeys(rows: seq<Translation>, language: nat): set<string> {
    Keys(rows) - KeysOf(rows, language)
  }

  /** The percentage, before rounding. */
  function Percent(translated: nat, total: nat): real {
    if total > 0 then translated as real / total as real * 100.0 else 100.0
  }

  /** `round(x, 2)` on exact numbers: to the nearest hundredth, halves to the even one. */
  function Round2(x: real): real {
    var below := (x * 100.0).Floor;
    var rest := x * 100.0 - below as real;
    (if rest < 0.5 || (rest == 0.5 && below % 2 == 0) then below else below + 1) as real / 100.0
  }

  /** The numbers of one language as the statistics define them. */
  ghost predicate Describes(s: Statistics, rows: seq<Translation>, language: nat) {
    && s.totalKeys == |Keys(rows)|
    && s.translatedKeys == |KeysOf(rows, language)|
    && s.needsReview == |KeysToReview(rows, language)|
    && s.missingKeys == s.totalKeys - s.translatedKeys
    && s.completion == Round2(Percent(s.translatedKeys, s.totalKeys))
  }

  /** `order` is an answer of `get_languages`: languages, none twice, all of them or, as the limit is
      not given, the default number. Which come first is the order of names in the database's collation. */
  ghost predicate ListsLanguages(order: seq<nat>, languages: seq<Language>) {
    && (forall k | 0 <= k < |order| :: order[k] < |languages|)
    && (forall j, k | 0 <= j < k < |order| :: order[j] != order[k])
    && |order| == if |languages| > 100 then 100 else |languages|
  }

  method GetTranslationStats(languages: seq<Language>, order: seq<nat>, rows: seq<Translation>)
    returns (stats: seq<Statistics>)
    requires ListsLanguages(order, languages)
    ensures |stats| == |order|
    ensures forall k: nat | k < |order| ::
              stats[k].languageCode == languages[order[k]].code && stats[k].languageName == languages[order[k]].name
              && Describes(stats[k], rows, order[k])
  {
    stats := [];
    var total := |Keys(rows)|;
    for n := 0 to |order|
      invariant |stats| == n
      invariant forall k: nat | k < n ::
                  stats[k].languageCode == languages[order[k]].code && stats[k].languageName == languages[order[k]].name
                  && Describes(stats[k], rows, order[k])
    {
      var l := order[n];
      var translated := |KeysOf(rows, l)|;
      var completion := if total > 0 then translated as real / total as real * 100.0 else 100.0;
      stats := stats + [Statistics(languages[l].code, languages[l].name, total, translated, total - translated,
                                   |KeysToReview(rows, l)|, Round2(completion))];
    }
  }

  /** An update that sets or clears the review mark of one row. */
  function Marking(mark: bool): Update {
    Update(Unset, Unset, Unset, Unset, Unset, Set(Some(mark)))
  }

  /** Setting the review mark of a translation adds its key to those to review; clearing it takes the key
      away, unless the language has the key marked in another row. */
  lemma ReviewMarksCount(db: Db, id: nat, mark: bool)
    requires id < |db.rows|
    ensures var (language, key) := (db.rows[id].language, db.rows[id].key);
            var before := KeysToReview(db.rows, language);
            var after := KeysToReview(Updated(db, id, Marking(mark)).rows, language);
            && (mark ==> after == before + {key})
            && (!mark ==> after == if MarkedElsewhere(db.rows, id, language, key) then before else before - {key})
    ensures forall l | l != db.rows[id].language ::
              KeysToReview(Updated(db, id, Marking(mark)).rows, l) == KeysToReview(db.rows, l)
  {
    var rows, rows' := db.rows, Updated(db, id, Marking(mark)).rows;
    var (language, key) := (rows[id].language, rows[id].key);
    forall l: nat, k
      ensures k in KeysToReview(rows', l) <==> (mark && l == language && k == key) || MarkedElsewhere(rows, id, l, k)
      ensures k in KeysToReview(rows, l) <==> Marked(rows, id, l, k) || MarkedElsewhere(rows, id, l, k)
    {
      MarkedKeys(rows, id, l, k);
      MarkedKeys(rows', id, l, k);
      assert forall i | 0 <= i < |rows| && i != id :: Marked(rows', i, l, k) <==> Marked(rows, i, l, k);
      assert MarkedElsewhere(rows', id, l, k) <==> MarkedElsewhere(rows, id, l, k);
    }
    hide KeysToReview, Updated, MarkedElsewhere;
  }

  ghost predicate Marked(rows: seq<Translation>, i: nat, language: nat, key: string)
    requires i < |rows|
  {
    rows[i].language == language && rows[i].key == key && rows[i].review == Some(true)
  }

  ghost predicate MarkedElsewhere(rows: seq<Translation>, id: nat, language: nat, key: string) {
    exists i | 0 <= i < |rows| && i != id :: Marked(rows, i, language, key)
  }

  lemma MarkedKeys(rows: seq<Translation>, id: nat, language: nat, key: string)
    requires id < |rows|
    ensures key in KeysToReview(rows, language)
       <==> Marked(rows, id, language, key) || MarkedElsewhere(rows, id, language, key)
  {
    if t :| t in rows && t.language == language && t.review == Some(true) && t.key == key {
      var i :| 0 <= i < |rows| && rows[i] == t;
      assert Marked(rows, i, language, key);
    }
    if i :| 0 <= i < |rows| && Marked(rows, i, language, key) {
      assert rows[i] in rows;
    }
  }

  lemma SubsetSize<T>(a: set<T>, b: set<T>)
    requires a <= b
    ensures |a| <= |b| && |b - a| == |b| - |a|
  {
    assert b == a + (b - a);
  }

  lemma Percentage(a: nat, b: nat)
    requires a <= b && b > 0
    ensures 0.0 <= a as real / b as real * 100.0 <= 100.0
    ensures a as real / b as real * 100.0 == 100.0 <==> a == b
  {
    var x, y := a as real, b as real;
    var q := x / y;
    assert q * y == x;
    assert q < 0.0 ==> q * y < 0.0;
    assert q > 1.0 ==> q * y > y;
    assert q == 1.0 ==> x == y;
  }

  /** Rounding keeps the order of hundredths. */
  lemma RoundReaches(x: real)
    requires 0.0 <= x <= 100.0
    ensures 0.0 <= Round2(x) <= 100.0
    ensures Round2(x) == 100.0 <==> x >= 99.995
  {
    var below := (x * 100.0).Floor;
    if below >= 10000 {
      assert below == 10000;
    } else {
      assert below <= 9999;
    }
  }

  /** Completion is a number of hundredths, none nearer to the percentage, and the even one of two. */
  lemma RoundsToNearest(x: real, h: int)
    ensures Round2(x) == h as real / 100.0
       <==> -0.5 <= x * 100.0 - h as real <= 0.5 && (x * 100.0 - h as real in {-0.5, 0.5} ==> h % 2 == 0)
  {
    var below := (x * 100.0).Floor;
    var near := if x * 100.0 - below as real < 0.5 || (x * 100.0 - below as real == 0.5 && below % 2 == 0)
                then below else below + 1;
    assert Round2(x) == near as real / 100.0;
    assert Round2(x) == h as real / 100.0 <==> near == h;
  }

  lemma Scaled(q: real, r: real, y: real)
    requires y > 0.0
    ensures q >= r <==> q * y >= r * y
  {
    var d := q - r;
    assert d * y == q * y - r * y;
    assert d >= 0.0 ==> d * y >= 0.0;
    assert d < 0.0 ==> d * y < 0.0;
  }

  lemma NearlyAll(a: nat, b: nat)
    requires a <= b && b > 0
    ensures a as real / b as real * 100.0 >= 99.995 <==> 20000 * (b - a) <= b
  {
    var x, y := a as real, b as real;
    Scaled(x / y, 0.99995, y);
    assert (x / y) * y == x;
    assert (b - a) as real == y - x;
  }

  /** The missing count obtained by subtraction is the number of keys the missing list names, the
      counts are ordered, the percentage is 100 exactly when nothing is missing, and the rounded
      completion reads 100 exactly when at most one key in 20000 is. */
  lemma StatisticsAgree(s: Statistics, rows: seq<Translation>, language: nat)
    requires Describes(s, rows, language)
    ensures s.missingKeys == |MissingKeys(rows, language)|
    ensures s.needsReview <= s.translatedKeys <= s.totalKeys
    ensures Percent(s.translatedKeys, s.totalKeys) == 100.0 <==> MissingKeys(rows, language) == {}
    ensures 0.0 <= s.completion <= 100.0
    ensures s.completion == 100.0 <==> 20000 * s.missingKeys <= s.totalKeys
  {
    assert KeysToReview(rows, language) <= KeysOf(rows, language) <= Keys(rows);
    hide Keys, KeysOf, KeysToReview, Round2;
    SubsetSize(KeysOf(rows, language), Keys(rows));
    SubsetSize(KeysToReview(rows, language), KeysOf(rows, language));
    if s.totalKeys > 0 {
      Percentage(s.translatedKeys, s.totalKeys);
      NearlyAll(s.translatedKeys, s.totalKeys);
    }
    RoundReaches(Percent(s.translatedKeys, s.totalKeys));
  }

  /** One key in 100000 is missing, and the completion reads 100. */
  lemma ReadsComplete()
    ensures Round2(Percent(99999, 100000)) == 100.0
  {
    NearlyAll(99999, 100000);
    Percentage(99999, 100000);
    RoundReaches(Percent(99999, 100000));
  }
}
