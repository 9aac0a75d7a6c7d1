/** What the parts of an Accept-Language header mean: qualities as decimals, 1 where there is none, and
    primary codes. */
module HeaderParts {
  import opened Options
  import opened Text
  import opened TextLaws
  import opened AcceptLanguage

  /** Reading decimal digits from the left, after `n` was read. */
  function NatFrom(n: nat, digits: string): nat
    requires AreDigits(digits)
    decreases |digits|
  {
    if digits == "" then n else NatFrom(10 * n + (digits[0] as int - '0' as int), digits[1..])
  }

  predicate AreDigits(s: string) {
    forall i | 0 <= i < |s| :: IsDigit(s[i])
  }

  /** `m` with `k` zeros behind it. */
  function Shifted(m: nat, k: nat): nat
    decreases k
  {
    if k == 0 then m else Shifted(10 * m, k - 1)
  }

  lemma {:induction false} NatAppend(n: nat, a: string, b: string)
    requires AreDigits(a) && AreDigits(b)
    ensures AreDigits(a + b) && NatFrom(n, a + b) == NatFrom(NatFrom(n, a), b)
    decreases |a|
  {
    if a == "" {
      assert a + b == b;
    } else {
      assert (a + b)[1..] == a[1..] + b;
      NatAppend(10 * n + (a[0] as int - '0' as int), a[1..], b);
    }
  }

  lemma {:induction false} ScaledWhole(w: string, rest: string, n: nat)
    requires AreDigits(w)
    ensures Scaled(w + rest, n as real, 0.0) == Scaled(rest, NatFrom(n, w) as real, 0.0)
    decreases |w|
  {
    if w == "" {
      assert w + rest == rest;
    } else {
      var d := w[0] as int - '0' as int;
      assert (w + rest)[1..] == w[1..] + rest && IsDigit(w[0]);
      assert n as real * 10.0 + d as real == (10 * n + d) as real;
      ScaledWhole(w[1..], rest, 10 * n + d);
    }
  }

  /** `x` is `n` divided by `m`. */
  predicate Quotient(x: real, n: nat, m: nat) {
    x * m as real == n as real
  }

  /** After the dot: what was read is `n` divided by `power`, whose inverse is `place`. */
  lemma {:induction false} ScaledFraction(f: string, value: real, n: nat, place: real, power: nat)
    requires AreDigits(f) && Placed(value, n, place, power)
    ensures Quotient(Scaled(f, value, place), NatFrom(n, f), Shifted(power, |f|))
    decreases |f|
  {
    hide Placed, Quotient;
    if f == "" {
      PlacedQuotient(value, n, place, power);
    } else {
      var d := f[0] as int - '0' as int;
      assert IsDigit(f[0]);
      NextPlace(value, n, d, place, power);
      assert Scaled(f, value, place) == Scaled(f[1..], value + d as real * (place / 10.0), place / 10.0);
      assert NatFrom(n, f) == NatFrom(10 * n + d, f[1..]);
      assert Shifted(power, |f|) == Shifted(10 * power, |f| - 1);
      ScaledFraction(f[1..], value + d as real * (place / 10.0), 10 * n + d, place / 10.0, 10 * power);
    }
  }

  ghost predicate Placed(value: real, n: nat, place: real, power: nat) {
    place > 0.0 && Quotient(place, 1, power) && Quotient(value, n, power)
  }

  lemma PlacedQuotient(value: real, n: nat, place: real, power: nat)
    requires Placed(value, n, place, power)
    ensures place > 0.0 && Quotient(value, n, power)
  {
  }

  lemma NextPlace(value: real, n: nat, d: nat, place: real, power: nat)
    requires Placed(value, n, place, power)
    ensures place > 0.0
    ensures Placed(value + d as real * (place / 10.0), 10 * n + d, place / 10.0, 10 * power)
  {
    var p, q := power as real, place / 10.0;
    assert (10 * power) as real == 10.0 * p;
    assert q * (10.0 * p) == q * 10.0 * p;
    assert q * 10.0 == place;
    Distributes(value, d as real, q, 10.0 * p);
    assert value * (10.0 * p) == 10.0 * (value * p);
  }

  lemma Distributes(value: real, d: real, q: real, p: real)
    ensures (value + d * q) * p == value * p + d * (q * p)
  {
  }

  lemma {:induction false} CountsAppend(a: string, b: string)
    ensures |Digits(a + b)| == |Digits(a)| + |Digits(b)| && Dots(a + b) == Dots(a) + Dots(b)
  {
    if a == "" {
      assert a + b == b;
    } else {
      assert (a + b)[1..] == a[1..] + b;
      CountsAppend(a[1..], b);
    }
  }

  lemma {:induction false} CountsOfDigits(s: string)
    requires AreDigits(s)
    ensures |Digits(s)| == |s| && Dots(s) == 0
  {
    if s != "" {
      CountsOfDigits(s[1..]);
    }
  }

  /** A quality without a dot is a whole number. */
  lemma WholeQuality(w: string)
    requires AreDigits(w) && w != ""
    ensures ParseDecimal(w) == Some(NatFrom(0, w) as real)
  {
    CountsOfDigits(w);
    ScaledWhole(w, "", 0);
    assert w + "" == w;
  }

  /** With a dot, the digits around it, divided by ten for each digit after it. */
  lemma DottedQuality(w: string, f: string)
    requires AreDigits(w) && AreDigits(f) && w + f != ""
    ensures AreDigits(w + f) && ParseDecimal(w + "." + f).Some?
    ensures Quotient(ParseDecimal(w + "." + f).value, NatFrom(0, w + f), Shifted(1, |f|))
  {
    var s := "." + f;
    assert w + "." + f == w + s && s[1..] == f;
    CountsOfDigits(w);
    CountsOfDigits(f);
    CountsAppend(w, s);
    ScaledWhole(w, s, 0);
    NatAppend(0, w, f);
    var n := NatFrom(0, w);
    assert Scaled(s, n as real, 0.0) == Scaled(f, n as real, 1.0);
    assert Placed(n as real, n, 1.0, 1);
    ScaledFraction(f, n as real, n, 1.0, 1);
    hide Quotient, NatFrom, Digits, Dots, Shifted;
    assert w + f != "" ==> |w| + |f| > 0;
  }

  /** No number: no digit at all, or more than one dot. */
  lemma NoQuality(s: string)
    requires IsQuality(s)
    ensures ParseDecimal(s).None?
       <==> (forall i | 0 <= i < |s| :: s[i] == '.') || exists i, j :: 0 <= i < j < |s| && s[i] == s[j] == '.'
  {
    NoDigits(s);
    ManyDots(s);
  }

  lemma {:induction false} NoDigits(s: string)
    requires IsQuality(s)
    ensures Digits(s) == "" <==> forall i | 0 <= i < |s| :: s[i] == '.'
  {
    if s != "" {
      assert s[0] in s && forall c | c in s[1..] :: c in s;
      NoDigits(s[1..]);
      assert forall i | 0 < i < |s| :: s[i] == s[1..][i - 1];
      if Digits(s[1..]) == "" && s[0] == '.' {
        forall i | 0 <= i < |s|
          ensures s[i] == '.'
        {
          assert i > 0 ==> s[1..][i - 1] == '.';
        }
      }
    }
  }

  lemma {:induction false} SomeDot(s: string)
    ensures Dots(s) > 0 <==> '.' in s
  {
    if s != "" {
      SomeDot(s[1..]);
      assert s == [s[0]] + s[1..];
    }
  }

  lemma {:induction false} ManyDots(s: string)
    ensures Dots(s) > 1 <==> exists i, j :: 0 <= i < j < |s| && s[i] == s[j] == '.'
  {
    if s != "" {
      ManyDots(s[1..]);
      SomeDot(s[1..]);
      if i, j :| 0 <= i < j < |s[1..]| && s[1..][i] == s[1..][j] == '.' {
        assert s[i + 1] == s[j + 1] == '.';
      }
      if s[0] == '.' && '.' in s[1..] {
        var j :| 0 <= j < |s[1..]| && s[1..][j] == '.';
        assert s[0] == s[j + 1] == '.';
      }
      if i, j :| 0 <= i < j < |s| && s[i] == s[j] == '.' {
        assert s[1..][j - 1] == '.';
        assert i > 0 ==> s[1..][i - 1] == s[1..][j - 1] == '.';
      }
    }
  }

  /** Every match keeps its tag and gets the quality it states, or 1; a quality that is no number raises. */
  lemma {:induction false} WeightedExactly(ms: seq<Match>, es: seq<Entry>)
    ensures Weighted(ms) == Some(es) <==> |es| == |ms| && forall i | 0 <= i < |ms| :: Weighs(ms[i], es[i])
  {
    if ms != [] && es != [] {
      WeightedExactly(ms[1..], es[1..]);
      assert es == [es[0]] + es[1..];
      assert forall i | 0 < i < |ms| :: ms[i] == ms[1..][i - 1];
      assert forall i | 0 < i < |es| :: es[i] == es[1..][i - 1];
      hide Weighs, ParseDecimal;
      assert Weighs(ms[0], es[0]) <==> StatedQuality(ms[0]) == Some(es[0].quality) && es[0].tag == ms[0].tag by {
        WeighsStated(ms[0], es[0]);
      }
    }
  }

  function StatedQuality(m: Match): Option<real> {
    if m.quality == "" then Some(1.0) else ParseDecimal(m.quality)
  }

  predicate Weighs(m: Match, e: Entry) {
    e.tag == m.tag && if m.quality == "" then e.quality == 1.0 else ParseDecimal(m.quality) == Some(e.quality)
  }

  lemma WeighsStated(m: Match, e: Entry)
    ensures Weighs(m, e) <==> StatedQuality(m) == Some(e.quality) && e.tag == m.tag
  {
    hide ParseDecimal;
  }

  /** The primary code is what stands before the first hyphen, in small letters. */
  lemma PrimaryExactly(head: string, rest: string)
    requires '-' !in head
    ensures Primary(head) == Lower(head)
    ensures Primary(head + "-" + rest) == Lower(head)
  {
    assert Join([head], "-") == head;
    SplitJoin([head], "-");
    var parts := Split(rest, "-");
    JoinSplit(rest, "-");
    SplitLacks(rest, '-');
    var all := [head] + parts;
    assert all[1..] == parts;
    assert Join(all, "-") == head + "-" + rest;
    SplitJoin(all, "-");
  }

  /** A tag is made of letters and hyphens, a quality of digits and dots. */
  lemma CharactersExactly(c: char)
    ensures TagChar(c) <==> 65 <= c as int <= 90 || 97 <= c as int <= 122 || c as int == 45
    ensures QualityChar(c) <==> 48 <= c as int <= 57 || c as int == 46
  {
    LettersExactly(c);
  }

  /** An entry stands for its tag if that is available as it is written, otherwise for what is before its first
      hyphen, in small letters, if that is, otherwise for nothing. */
  lemma AvailableExactly(tag: string, head: string, rest: string, available: seq<string>, code: string)
    requires '-' !in head && (tag == head || tag == head + "-" + rest)
    ensures Available(tag, available) == Some(code)
       <==> code in available && (code == tag || (tag !in available && code == Lower(head)))
    ensures Available(tag, available).None? <==> tag !in available && Lower(head) !in available
  {
    PrimaryExactly(head, rest);
    hide Primary, Lower;
  }

  /** Without a cookie or header that decides: the code the database names, unless the lookup fails or there
      is no language; an empty code counts as none. */
  lemma DefaultExactly(d: LanguageDetection, database: Lookup, code: string)
    ensures d.availableLanguages == [] ==> d.Default(database) == d.defaultLanguage
    ensures d.availableLanguages != [] && database.Fails? ==> d.Default(database) == d.availableLanguages[0]
    ensures d.availableLanguages != [] && database == Code("") ==> d.Default(database) == d.defaultLanguage
    ensures d.availableLanguages != [] && database == Code(code) && |code| > 0 ==> d.Default(database) == code
  {
  }
}
