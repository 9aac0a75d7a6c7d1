/** Language negotiation: cookie, then the Accept-Language header, then the default. Qualities are
    exact decimals. */
module AcceptLanguage {
  import opened Options
  import opened Text

  // Scanning the header

  predicate TagChar(c: char) {
    IsLetter(c) || c == '-'
  }

  predicate QualityChar(c: char) {
    IsDigit(c) || c == '.'
  }

  /** How many characters from the start of `s` satisfy `p`. */
  function Run(s: string, p: char -> bool): (n: nat)
    ensures n <= |s|
    ensures forall i | 0 <= i < n :: p(s[i])
    ensures n < |s| ==> !p(s[n])
  {
    if s == "" || !p(s[0]) then 0 else 1 + Run(s[1..], p)
  }

  /** A match of the expression: the tag, and the quality text (empty if there is none). */
  datatype Match = Match(tag: string, quality: string)

  const QUALITY_MARK := ";q="

  /** `re.findall` of a longest run of letters and hyphens, optionally followed by `;q=` and a
      longest non-empty run of digits and dots. */
  function FindAll(s: string): seq<Match>
    decreases |s|, 0
  {
    if s == "" then []
    else
      var n := Run(s, TagChar);
      if n == 0 then FindAll(s[1..]) else AfterTag(s[..n], s[n..])
  }

  function AfterTag(tag: string, rest: string): seq<Match>
    decreases |rest|, 1
  {
    var quality := if QUALITY_MARK <= rest then Run(rest[|QUALITY_MARK|..], QualityChar) else 0;
    if quality > 0 then
      [Match(tag, rest[|QUALITY_MARK|..][..quality])] + FindAll(rest[|QUALITY_MARK|..][quality..])
    else [Match(tag, "")] + FindAll(rest)
  }

  // Printing a header

  predicate IsTag(s: string) {
    s != "" && forall c | c in s :: TagChar(c)
  }

  predicate IsQuality(s: string) {
    forall c | c in s :: QualityChar(c)
  }

  predicate IsEntry(m: Match) {
    IsTag(m.tag) && IsQuality(m.quality)
  }

  /** What stands between two entries: commas and blanks, at least one. */
  predicate IsSeparator(s: string) {
    s != "" && forall c | c in s :: c == ',' || c == ' '
  }

  function PrintEntry(m: Match): string {
    if m.quality == "" then m.tag else m.tag + QUALITY_MARK + m.quality
  }

  /** The entries, each followed by its separator; the last one may stand alone. */
  function PrintHeader(ms: seq<Match>, separators: seq<string>): string
    requires |separators| == |ms|
  {
    if ms == [] then "" else PrintEntry(ms[0]) + separators[0] + PrintHeader(ms[1..], separators[1..])
  }

  predicate GoodSeparators(separators: seq<string>) {
    forall i | 0 <= i < |separators| :: IsSeparator(separators[i]) || (i == |separators| - 1 && separators[i] == "")
  }

  lemma {:induction false} RunIs(a: string, b: string, p: char -> bool)
    requires forall c | c in a :: p(c)
    requires b == "" || !p(b[0])
    ensures Run(a + b, p) == |a|
  {
    if a == "" {
      assert a + b == b;
    } else {
      assert a[0] in a && forall c | c in a[1..] :: c in a;
      assert (a + b)[1..] == a[1..] + b;
      RunIs(a[1..], b, p);
    }
  }

  lemma {:induction false} SkipSeparator(sep: string, rest: string)
    requires forall c | c in sep :: c == ',' || c == ' '
    ensures FindAll(sep + rest) == FindAll(rest)
  {
    if sep == "" {
      assert sep + rest == rest;
    } else {
      assert sep[0] in sep && forall c | c in sep[1..] :: c in sep;
      assert (sep + rest)[1..] == sep[1..] + rest;
      assert Run(sep + rest, TagChar) == 0;
      SkipSeparator(sep[1..], rest);
    }
  }

  lemma ScanTag(tag: string, rest: string)
    requires IsTag(tag) && (rest == "" || !TagChar(rest[0]))
    ensures FindAll(tag + rest) == AfterTag(tag, rest)
  {
    hide AfterTag, IsTag;
    assert tag != "" && forall c | c in tag :: TagChar(c) by { IsTagMeans(tag); }
    RunIs(tag, rest, TagChar);
    assert (tag + rest)[..|tag|] == tag && (tag + rest)[|tag|..] == rest;
  }

  lemma IsTagMeans(tag: string)
    requires IsTag(tag)
    ensures tag != "" && forall c | c in tag :: TagChar(c)
  {
  }

  lemma ScanQuality(tag: string, quality: string, rest: string)
    requires IsQuality(quality) && quality != ""
    requires rest == "" || !QualityChar(rest[0])
    ensures AfterTag(tag, QUALITY_MARK + (quality + rest)) == [Match(tag, quality)] + FindAll(rest)
  {
    hide FindAll;
    var tail := QUALITY_MARK + (quality + rest);
    assert tail[|QUALITY_MARK|..] == quality + rest;
    RunIs(quality, rest, QualityChar);
    assert (quality + rest)[..|quality|] == quality && (quality + rest)[|quality|..] == rest;
  }

  /** One printed entry, with something behind it that cannot belong to it. */
  lemma ScanEntry(m: Match, rest: string)
    requires IsEntry(m)
    requires rest == "" || rest[0] == ',' || rest[0] == ' '
    ensures FindAll(PrintEntry(m) + rest) == [m] + FindAll(rest)
  {
    hide FindAll, IsTag, IsQuality;
    if m.quality == "" {
      ScanTag(m.tag, rest);
    } else {
      assert PrintEntry(m) + rest == m.tag + (QUALITY_MARK + (m.quality + rest));
      ScanTag(m.tag, QUALITY_MARK + (m.quality + rest));
      ScanQuality(m.tag, m.quality, rest);
    }
  }

  lemma ScanFirst(m: Match, sep: string, later: string)
    requires IsEntry(m)
    requires IsSeparator(sep) || (sep == "" && later == "")
    ensures FindAll(PrintEntry(m) + sep + later) == [m] + FindAll(later)
  {
    assert sep + later == "" || sep[0] in sep;
    assert PrintEntry(m) + sep + later == PrintEntry(m) + (sep + later);
    ScanEntry(m, sep + later);
    SkipSeparator(sep, later);
  }

  /** Scanning a printed header gives the entries back, in order, however they are spaced. */
  lemma {:induction false} PrintThenScan(ms: seq<Match>, separators: seq<string>)
    requires |separators| == |ms| && GoodSeparators(separators)
    requires forall m | m in ms :: IsEntry(m)
    ensures FindAll(PrintHeader(ms, separators)) == ms
  {
    if ms != [] {
      hide FindAll, PrintEntry, IsEntry;
      assert forall i | 0 <= i < |separators[1..]| :: separators[1..][i] == separators[i + 1];
      assert forall m | m in ms[1..] :: m in ms;
      PrintThenScan(ms[1..], separators[1..]);
      assert ms[0] in ms;
      assert |ms| == 1 ==> PrintHeader(ms[1..], separators[1..]) == "";
      ScanFirst(ms[0], separators[0], PrintHeader(ms[1..], separators[1..]));
      assert [ms[0]] + ms[1..] == ms;
    }
  }

  // Qualities

  /** The decimal that digits with at most one dot denote; `None` where Python's `float` raises. */
  function ParseDecimal(s: string): Option<real> {
    if |Digits(s)| == 0 || Dots(s) > 1 then None else Some(Scaled(s, 0.0, 0.0))
  }

  function Digits(s: string): string {
    if s == "" then "" else (if IsDigit(s[0]) then [s[0]] else "") + Digits(s[1..])
  }

  function Dots(s: string): nat {
    if s == "" then 0 else (if s[0] == '.' then 1 else 0) + Dots(s[1..])
  }

  /** `place` is 0 before the dot, and the weight of the last digit after it. */
  function Scaled(s: string, value: real, place: real): real {
    if s == "" then value
    else if s[0] == '.' then Scaled(s[1..], value, 1.0)
    else
      var d := (s[0] as int - '0' as int) as real;
      if place == 0.0 then Scaled(s[1..], value * 10.0 + d, 0.0)
      else Scaled(s[1..], value + d * (place / 10.0), place / 10.0)
  }

  datatype Entry = Entry(tag: string, quality: real)

  /** `float(quality or '1.0')` for each match. */
  function Weighted(ms: seq<Match>): Option<seq<Entry>> {
    if ms == [] then Some([])
    else
      match (if ms[0].quality == "" then Some(1.0) else ParseDecimal(ms[0].quality), Weighted(ms[1..]))
      case (Some(q), Some(es)) => Some([Entry(ms[0].tag, q)] + es)
      case _ => None
  }

  // Sorting and choosing

  /** Places `e` behind every entry of at least its quality. */
  function Insert(e: Entry, sorted: seq<Entry>): seq<Entry> {
    if sorted == [] || sorted[0].quality < e.quality then [e] + sorted
    else [sorted[0]] + Insert(e, sorted[1..])
  }

  /** `sort(key=quality, reverse=True)`: by falling quality, equal ones in their old order. */
  function StableSort(es: seq<Entry>): seq<Entry> {
    if es == [] then [] else Insert(es[|es| - 1], StableSort(es[..|es| - 1]))
  }

  /** `lang_code.split('-')[0].lower()` */
  function Primary(tag: string): string {
    Lower(Split(tag, "-")[0])
  }

  /** The available code an entry stands for, if any. */
  function Available(tag: string, available: seq<string>): Option<string> {
    if tag in available then Some(tag)
    else if Primary(tag) in available then Some(Primary(tag))
    else None
  }

  /** The first entry that stands for an available code. */
  function FirstOffer(es: seq<Entry>, available: seq<string>): Option<Entry> {
    if es == [] then None
    else if Available(es[0].tag, available).Some? then Some(es[0])
    else FirstOffer(es[1..], available)
  }

  /** `_get_language_from_header`: `None` where a quality is not a number. */
  function Negotiate(header: string, available: seq<string>): Option<Option<string>> {
    match Weighted(FindAll(header))
    case None => None
    case Some(es) =>
      match FirstOffer(StableSort(es), available)
      case None => Some(None)
      case Some(e) => Some(Available(e.tag, available))
  }

  /** Entry `i` offers an available code, no entry that does has a higher quality, and none of the
      same quality stands before it. */
  ghost predicate Best(es: seq<Entry>, available: seq<string>, i: nat) {
    && i < |es| && Available(es[i].tag, available).Some?
    && forall j | 0 <= j < |es| && Available(es[j].tag, available).Some? ::
         es[j].quality <= es[i].quality && (es[j].quality == es[i].quality ==> i <= j)
  }

  ghost predicate Falling(es: seq<Entry>) {
    forall i, j | 0 <= i < j < |es| :: es[i].quality >= es[j].quality
  }

  lemma {:induction false} InsertFalling(e: Entry, sorted: seq<Entry>)
    requires Falling(sorted)
    ensures Falling(Insert(e, sorted))
    ensures forall x :: x in Insert(e, sorted) <==> x == e || x in sorted
  {
    if sorted != [] && !(sorted[0].quality < e.quality) {
      assert forall j | 0 < j < |sorted| :: sorted[j] == sorted[1..][j - 1];
      InsertFalling(e, sorted[1..]);
      var r := Insert(e, sorted[1..]);
      forall k | 0 <= k < |r|
        ensures sorted[0].quality >= r[k].quality
      {
        assert r[k] in r;
      }
    }
  }

  lemma {:induction false} SortFalling(es: seq<Entry>)
    ensures Falling(StableSort(es))
    ensures forall x :: x in StableSort(es) <==> x in es
  {
    if es != [] {
      SortFalling(es[..|es| - 1]);
      InsertFalling(es[|es| - 1], StableSort(es[..|es| - 1]));
      assert es == es[..|es| - 1] + [es[|es| - 1]];
    }
  }

  /** Nothing in a falling list exceeds its head. */
  lemma {:induction false} OfferWithin(es: seq<Entry>, available: seq<string>)
    requires Falling(es) && es != [] && FirstOffer(es, available).Some?
    ensures FirstOffer(es, available).value.quality <= es[0].quality
  {
    if Available(es[0].tag, available).None? {
      assert es[1].quality <= es[0].quality;
      OfferWithin(es[1..], available);
    }
  }

  /** A new entry takes the lead exactly when it offers something and nothing as good did. */
  lemma {:induction false} InsertOffer(e: Entry, sorted: seq<Entry>, available: seq<string>)
    requires Falling(sorted)
    ensures var before := FirstOffer(sorted, available);
            FirstOffer(Insert(e, sorted), available)
            == if Available(e.tag, available).Some? && (before.None? || before.value.quality < e.quality)
               then Some(e) else before
  {
    if sorted == [] || sorted[0].quality < e.quality {
      assert ([e] + sorted)[1..] == sorted;
      if FirstOffer(sorted, available).Some? {
        OfferWithin(sorted, available);
      }
    } else {
      InsertOffer(e, sorted[1..], available);
      assert Insert(e, sorted)[1..] == Insert(e, sorted[1..]);
      if Available(sorted[0].tag, available).None? && FirstOffer(sorted[1..], available).Some? {
        OfferWithin(sorted[1..], available);
      }
    }
  }

  /** The scan of the sorted list finds the best entry of the unsorted one. */
  lemma {:induction false} SortedOffer(es: seq<Entry>, available: seq<string>) returns (i: nat)
    ensures FirstOffer(StableSort(es), available).None? ==>
              forall j | 0 <= j < |es| :: Available(es[j].tag, available).None?
    ensures FirstOffer(StableSort(es), available).Some? ==>
              Best(es, available, i) && FirstOffer(StableSort(es), available).value == es[i]
  {
    hide Falling, StableSort, FirstOffer, Available;
    i := 0;
    if es == [] {
      NothingOffered(available);
    } else {
      var init, e := es[..|es| - 1], es[|es| - 1];
      SortFalling(init);
      InsertOffer(e, StableSort(init), available);
      i := SortedOffer(init, available);
      var before := FirstOffer(StableSort(init), available);
      if Available(e.tag, available).Some? && (before.None? || before.value.quality < e.quality) {
        i := |es| - 1;
      }
      assert forall j | 0 <= j < |init| :: init[j] == es[j];
      SortStep(es);
    }
  }

  lemma NothingOffered(available: seq<string>)
    ensures FirstOffer(StableSort([]), available).None?
  {
  }

  lemma SortStep(es: seq<Entry>)
    requires es != []
    ensures StableSort(es) == Insert(es[|es| - 1], StableSort(es[..|es| - 1]))
  {
  }

  /** The header's answer is the available code of its best entry: highest quality, earliest among
      equals; there is no answer exactly when no entry offers an available code. */
  lemma NegotiationPicksBest(header: string, available: seq<string>)
    ensures Negotiate(header, available).None? <==> Weighted(FindAll(header)).None?
    ensures Negotiate(header, available) == Some(None) ==>
              forall e | e in Weighted(FindAll(header)).value :: Available(e.tag, available).None?
    ensures Negotiate(header, available).Some? && Negotiate(header, available).value.Some? ==>
              exists i: nat :: Best(Weighted(FindAll(header)).value, available, i)
                && Negotiate(header, available).value
                   == Available(Weighted(FindAll(header)).value[i].tag, available)
  {
    if Weighted(FindAll(header)).Some? {
      var i := SortedOffer(Weighted(FindAll(header)).value, available);
    }
  }

  // Languages the header refuses

  lemma {:induction false} RunQuality(s: string)
    ensures IsQuality(s[..Run(s, QualityChar)])
  {
  }

  lemma {:induction false} QualitiesOf(s: string)
    ensures forall m | m in FindAll(s) :: IsQuality(m.quality)
    decreases |s|
  {
    if s != "" {
      var n := Run(s, TagChar);
      if n == 0 {
        QualitiesOf(s[1..]);
      } else {
        var rest := s[n..];
        var quality := if QUALITY_MARK <= rest then Run(rest[|QUALITY_MARK|..], QualityChar) else 0;
        if quality > 0 {
          RunQuality(rest[|QUALITY_MARK|..]);
          QualitiesOf(rest[|QUALITY_MARK|..][quality..]);
        } else {
          QualitiesOf(rest);
        }
      }
    }
  }

  lemma {:induction false} ScaledNotNegative(s: string, value: real, place: real)
    requires IsQuality(s) && value >= 0.0 && place >= 0.0
    ensures Scaled(s, value, place) >= 0.0
  {
    if s != "" {
      assert s[0] in s && forall c | c in s[1..] :: c in s;
      if s[0] == '.' {
        ScaledNotNegative(s[1..], value, 1.0);
      } else {
        var d := (s[0] as int - '0' as int) as real;
        assert d >= 0.0;
        if place == 0.0 {
          ScaledNotNegative(s[1..], value * 10.0 + d, 0.0);
        } else {
          assert d * (place / 10.0) >= 0.0;
          ScaledNotNegative(s[1..], value + d * (place / 10.0), place / 10.0);
        }
      }
    }
  }

  lemma {:induction false} WeightedNotNegative(ms: seq<Match>)
    requires Weighted(ms).Some? && forall m | m in ms :: IsQuality(m.quality)
    ensures forall e | e in Weighted(ms).value :: e.quality >= 0.0
  {
    if ms != [] {
      WeightedNotNegative(ms[1..]);
      assert ms[0] in ms;
      ScaledNotNegative(ms[0].quality, 0.0, 0.0);
    }
  }

  /** The entries of a header, with their qualities. */
  function Entries(header: string): seq<Entry>
    requires Weighted(FindAll(header)).Some?
  {
    Weighted(FindAll(header)).value
  }

  /** An entry names the code, in whatever case, with quality 0: "not acceptable" (section 12.4.2 of
      RFC 9110). */
  predicate Refuses(es: seq<Entry>, code: string) {
    exists e :: e in es && RefusesBy(e, code)
  }

  predicate RefusesBy(e: Entry, code: string) {
    e.quality == 0.0 && Lower(e.tag) == Lower(code)
  }

  /** The entry offers an available code and is not itself refused. */
  predicate Acceptable(e: Entry, available: seq<string>) {
    Available(e.tag, available).Some? && e.quality > 0.0
  }

  predicate SomeAcceptable(es: seq<Entry>, available: seq<string>) {
    exists e :: e in es && Acceptable(e, available)
  }

  /** The code an entry offers is not its own tag but the primary code of it. */
  predicate OffersPrimary(e: Entry, available: seq<string>) {
    Available(e.tag, available).Some? && Lower(Available(e.tag, available).value) != Lower(e.tag)
  }

  /** A tag with quality 0 is not named again, nor is it the primary code of another tag. */
  predicate Separate(es: seq<Entry>) {
    forall j, k | 0 <= j < |es| && 0 <= k < |es| && j != k && es[j].quality == 0.0 ::
      Lower(es[k].tag) != Lower(es[j].tag) && Primary(es[k].tag) != Lower(es[j].tag)
  }

  lemma {:induction false} LowerTwice(s: string)
    ensures Lower(Lower(s)) == Lower(s)
  {
    assert forall i | 0 <= i < |s| :: Lower(Lower(s))[i] == Lower(s)[i];
  }

  lemma {:induction false} FirstOfferIs(es: seq<Entry>, available: seq<string>, i: nat)
    requires i < |es| && Available(es[i].tag, available).Some?
    requires forall j | 0 <= j < i :: Available(es[j].tag, available).None?
    ensures FirstOffer(es, available) == Some(es[i])
  {
    if i > 0 {
      assert es[1..][i - 1] == es[i];
      FirstOfferIs(es[1..], available, i - 1);
    }
  }

  /** Without positive quality among the available entries, the first of them is the best. */
  lemma BestIsFirst(es: seq<Entry>, available: seq<string>, i: nat)
    requires Best(es, available, i) && !SomeAcceptable(es, available)
    requires forall e | e in es :: e.quality >= 0.0
    ensures es[i].quality == 0.0 && FirstOffer(es, available) == Some(es[i])
  {
    assert es[i] in es && es[i].quality == 0.0;
    forall j | 0 <= j < i
      ensures Available(es[j].tag, available).None?
    {
      assert es[j] in es;
    }
    FirstOfferIs(es, available, i);
  }

  /** What an entry offers is refused, in a separate list, exactly by itself. */
  lemma RefusedByItself(es: seq<Entry>, available: seq<string>, i: nat)
    requires Separate(es) && i < |es| && Available(es[i].tag, available).Some?
    ensures Refuses(es, Available(es[i].tag, available).value)
       <==> es[i].quality == 0.0 && !OffersPrimary(es[i], available)
  {
    var code := Available(es[i].tag, available).value;
    LowerTwice(Split(es[i].tag, "-")[0]);
    forall j | 0 <= j < |es| && j != i
      ensures !RefusesBy(es[j], code)
    {
      assert es[j].quality == 0.0 ==>
          Lower(es[i].tag) != Lower(es[j].tag) && Primary(es[i].tag) != Lower(es[j].tag);
    }
    assert es[i] in es && (RefusesBy(es[i], code) <==> es[i].quality == 0.0 && !OffersPrimary(es[i], available));
  }

  /** In a list where no tag of quality 0 is named twice or is the primary code of another: the answer is
      a code the header does not refuse if and only if some available entry has positive quality, or
      the first available entry offers only its primary code. */
  lemma NotRefusedExactly(header: string, available: seq<string>)
    requires Negotiate(header, available).Some? && Negotiate(header, available).value.Some?
    requires Separate(Entries(header))
    ensures FirstOffer(Entries(header), available).Some?
    ensures var es := Entries(header);
            !Refuses(es, Negotiate(header, available).value.value)
            <==> SomeAcceptable(es, available) || OffersPrimary(FirstOffer(es, available).value, available)
  {
    var es := Entries(header);
    var i := SortedOffer(es, available);
    assert Negotiate(header, available).value == Available(es[i].tag, available);
    QualitiesOf(header);
    WeightedNotNegative(FindAll(header));
    hide Negotiate, Weighted, FindAll, Refuses, Separate, OffersPrimary, Available;
    RefusedByItself(es, available, i);
    if SomeAcceptable(es, available) {
      var e :| e in es && Acceptable(e, available);
      var j :| 0 <= j < |es| && es[j] == e;
      assert es[i].quality > 0.0;
      OfferExists(es, available, i);
    } else {
      BestIsFirst(es, available, i);
    }
  }

  lemma {:induction false} OfferExists(es: seq<Entry>, available: seq<string>, i: nat)
    requires i < |es| && Available(es[i].tag, available).Some?
    ensures FirstOffer(es, available).Some?
  {
    if Available(es[0].tag, available).None? {
      assert es[1..][i - 1] == es[i];
      OfferExists(es[1..], available, i - 1);
    }
  }

  /** In any list: the answer comes from an entry of positive quality if and only if some available entry
      has one. */
  lemma AcceptableExactly(header: string, available: seq<string>) returns (i: nat)
    requires Negotiate(header, available).Some? && Negotiate(header, available).value.Some?
    ensures var es := Entries(header);
            Best(es, available, i) && Negotiate(header, available).value == Available(es[i].tag, available)
            && (Acceptable(es[i], available) <==> SomeAcceptable(es, available))
  {
    var es := Entries(header);
    i := SortedOffer(es, available);
    if e :| e in es && Acceptable(e, available) {
      var j :| 0 <= j < |es| && es[j] == e;
    }
  }

  /** `fr;q=0` is answered with `fr` when nothing else is available. */
  lemma RefusedLanguageChosen()
    ensures Negotiate("fr;q=0", ["fr"]) == Some(Some("fr"))
  {
    var m, es := Match("fr", "0"), [Entry("fr", 0.0)];
    RefusedHeaderScans();
    ZeroQuality();
    assert Weighted([]) == Some([]);
    hide FindAll, ParseDecimal;
    WeighOne(m, [], 0.0, []);
    assert [m] + [] == [m] && [Entry("fr", 0.0)] + [] == es;
    assert StableSort(es) == es by {
      assert es[..0] == [];
    }
  }

  lemma RefusedHeaderScans()
    ensures FindAll("fr;q=0") == [Match("fr", "0")]
  {
    var m := Match("fr", "0");
    hide FindAll;
    assert IsEntry(m) && PrintEntry(m) == "fr;q=0";
    ScanEntry(m, "");
    assert "fr;q=0" + "" == "fr;q=0" && FindAll("") == [] by { NothingFound(); }
    assert [m] + [] == [m];
  }

  lemma NothingFound()
    ensures FindAll("") == []
  {
  }

  lemma ZeroQuality()
    ensures ParseDecimal("0") == Some(0.0)
  {
    assert "0"[1..] == "";
    assert Digits("0") == "0" && Dots("0") == 0;
  }

  lemma TwoQualities()
    ensures ParseDecimal("0.5") == Some(0.5) && ParseDecimal("0.3") == Some(0.3)
  {
    forall c, d: real | (c, d) in [('5', 0.5), ('3', 0.3)]
      ensures ParseDecimal(['0', '.', c]) == Some(d)
    {
      var s := ['0', '.', c];
      assert s[1..] == ['.', c] && ['.', c][1..] == [c] && [c][1..] == "";
      assert Digits([c]) == [c] && Digits(['.', c]) == [c] && Digits(s) == ['0', c];
      assert Dots([c]) == 0 && Dots(['.', c]) == 1 && Dots(s) == 1;
      assert Scaled([c], 0.0, 1.0) == d && Scaled(['.', c], 0.0, 0.0) == d;
    }
    assert ('5', 0.5) in [('5', 0.5), ('3', 0.3)] && ('3', 0.3) in [('5', 0.5), ('3', 0.3)];
    assert "0.5" == ['0', '.', '5'] && "0.3" == ['0', '.', '3'];
  }

  /** The header `fr;q=0, fr-CA;q=0.5, en;q=0.3`. */
  function PrimaryHeader(): string {
    PrintHeader([Match("fr", "0"), Match("fr-CA", "0.5"), Match("en", "0.3")], [", ", ", ", ""])
  }

  lemma WeighOne(m: Match, rest: seq<Match>, q: real, es: seq<Entry>)
    requires Weighted(rest) == Some(es) && m.quality != "" && ParseDecimal(m.quality) == Some(q)
    ensures Weighted([m] + rest) == Some([Entry(m.tag, q)] + es)
  {
    assert ([m] + rest)[1..] == rest;
  }

  lemma PrimaryHeaderScans()
    ensures FindAll(PrimaryHeader()) == [Match("fr", "0"), Match("fr-CA", "0.5"), Match("en", "0.3")]
  {
    var ms, seps := [Match("fr", "0"), Match("fr-CA", "0.5"), Match("en", "0.3")], [", ", ", ", ""];
    hide FindAll, PrintHeader;
    assert GoodSeparators(seps);
    forall m | m in ms
      ensures IsEntry(m)
    {
    }
    PrintThenScan(ms, seps);
  }

  lemma PrimaryHeaderWeighs()
    ensures Weighted([Match("fr", "0"), Match("fr-CA", "0.5"), Match("en", "0.3")])
         == Some([Entry("fr", 0.0), Entry("fr-CA", 0.5), Entry("en", 0.3)])
  {
    var a, b, c := Match("fr", "0"), Match("fr-CA", "0.5"), Match("en", "0.3");
    ZeroQuality();
    TwoQualities();
    assert Weighted([]) == Some([]);
    hide ParseDecimal, Weighted;
    WeighOne(c, [], 0.3, []);
    WeighOne(b, [c] + [], 0.5, [Entry("en", 0.3)] + []);
    WeighOne(a, [b] + ([c] + []), 0.0, [Entry("fr-CA", 0.5)] + ([Entry("en", 0.3)] + []));
    assert [a] + ([b] + ([c] + [])) == [a, b, c];
    assert [Entry("fr", 0.0)] + ([Entry("fr-CA", 0.5)] + ([Entry("en", 0.3)] + []))
        == [Entry("fr", 0.0), Entry("fr-CA", 0.5), Entry("en", 0.3)];
  }

  lemma PrimaryHeaderSorts()
    ensures StableSort([Entry("fr", 0.0), Entry("fr-CA", 0.5), Entry("en", 0.3)])
         == [Entry("fr-CA", 0.5), Entry("en", 0.3), Entry("fr", 0.0)]
  {
    var a, b, c := Entry("fr", 0.0), Entry("fr-CA", 0.5), Entry("en", 0.3);
    assert [a, b, c][..2] == [a, b] && [a, b][..1] == [a] && [a][..0] == [];
    assert StableSort([a]) == [a];
    assert StableSort([a, b]) == Insert(b, [a]) == [b, a];
    assert [b, a][1..] == [a];
    assert Insert(c, [b, a]) == [b] + Insert(c, [a]) == [b, c, a];
  }

  /** `fr;q=0, fr-CA;q=0.5, en;q=0.3` refuses `fr` and is answered with `fr`, although `en` is available
      and acceptable: the list is not separate. */
  lemma RefusedPrimaryChosen()
    ensures var header := PrimaryHeader();
            Weighted(FindAll(header)).Some? && Negotiate(header, ["fr", "en"]) == Some(Some("fr"))
            && Refuses(Entries(header), "fr") && SomeAcceptable(Entries(header), ["fr", "en"])
  {
    var es, available := [Entry("fr", 0.0), Entry("fr-CA", 0.5), Entry("en", 0.3)], ["fr", "en"];
    PrimaryHeaderScans();
    PrimaryHeaderWeighs();
    PrimaryHeaderSorts();
    hide FindAll, Weighted, StableSort;
    assert Primary("fr-CA") == "fr" by {
      assert Join(["fr", "CA"], "-") == "fr-CA";
      SplitJoin(["fr", "CA"], "-");
      assert "fr"[1..] == "r" && "r"[1..] == "";
    }
    assert Available("fr-CA", available) == Some("fr") && Available("en", available) == Some("en");
    assert es[0] in es && RefusesBy(es[0], "fr");
    assert es[2] in es && Acceptable(es[2], available);
  }

  // The middleware

  /** What the lookup of the default language in the database gives. */
  datatype Lookup = Code(code: string) | Fails

  datatype Outcome = Language(code: string) | ValueError

  class LanguageDetection {
    const availableLanguages: seq<string>
    const defaultLanguage: string

    constructor (availableLanguages: seq<string>, defaultLanguage: string)
      ensures this.availableLanguages == availableLanguages && this.defaultLanguage == defaultLanguage
    {
      this.availableLanguages, this.defaultLanguage := availableLanguages, defaultLanguage;
    }

    /** Scan, weigh, sort, and take the first entry with an available code. */
    method GetLanguageFromHeader(header: Option<string>) returns (r: Option<Option<string>>)
      ensures r == if header == None || header.value == "" then Some(None)
                   else Negotiate(header.value, availableLanguages)
    {
      if header == None || header.value == "" {
        return Some(None);
      }
      var weighted := Weighted(FindAll(header.value));
      if weighted.None? {
        return None;
      }
      var languages := weighted.value;
      languages := StableSort(languages);
      for k := 0 to |languages|
        invariant FirstOffer(languages[k..], availableLanguages) == FirstOffer(languages, availableLanguages)
      {
        var code := languages[k].tag;
        assert languages[k..][1..] == languages[k + 1..];
        if code in availableLanguages {
          return Some(Some(code));
        }
        if Primary(code) in availableLanguages {
          return Some(Some(Primary(code)));
        }
      }
      r := Some(None);
    }

    function Default(database: Lookup): string {
      if availableLanguages == [] then defaultLanguage
      else if database.Fails? then availableLanguages[0]
      else if database.code != "" then database.code
      else defaultLanguage
    }

    /** Cookie first, then the header, then the default; an empty code counts as none. */
    method Dispatch(cookie: Option<string>, header: Option<string>, database: Lookup) returns (r: Outcome)
      ensures cookie.Some? && cookie.value in availableLanguages && cookie.value != "" ==>
                r == Language(cookie.value)
      ensures !(cookie.Some? && cookie.value in availableLanguages && cookie.value != "") ==>
                match (if header == None || header.value == "" then Some(None)
                       else Negotiate(header.value, availableLanguages))
                case None => r == ValueError
                case Some(found) =>
                  r == Language(if found.Some? && found.value != "" then found.value else Default(database))
    {
      if cookie.Some? && cookie.value in availableLanguages && cookie.value != "" {
        return Language(cookie.value);
      }
      var found := GetLanguageFromHeader(header);
      if found.None? {
        return ValueError;
      }
      if found.value.Some? && found.value.value != "" {
        return Language(found.value.value);
      }
      r := Language(Default(database));
    }
  }
}
