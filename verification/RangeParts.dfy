/** What the parts of a range request mean: numbers as their digits, and when the whole file is sent. */
module RangeParts {
  import opened Options
  import opened Text
  import opened TextLaws
  import opened ByteRange

  // Numbers

  /** The decimal that digits denote, underscores left out. */
  function Value(s: string): nat
    requires forall i | 0 <= i < |s| :: IsDigit(s[i]) || s[i] == '_'
  {
    if s == "" then 0
    else if s[|s| - 1] == '_' then Value(s[..|s| - 1])
    else
      assert IsDigit(s[|s| - 1]);
      10 * Value(s[..|s| - 1]) + (s[|s| - 1] - '0') as nat
  }

  lemma {:induction false} DigitsValue(s: string)
    requires IsNumeral(s)
    ensures Digits(s) == Some(Value(s))
    decreases |s|
  {
    var front := s[..|s| - 1];
    if front != "" {
      var rest := if front[|front| - 1] == '_' then front[..|front| - 1] else front;
      assert rest == s[..|rest|];
      DigitsValue(rest);
    }
  }

  /** The white space around a number: what Python's `int` takes. */
  lemma IntSpaceExactly(c: char)
    ensures IsIntSpace(c) <==> c in [
      '\t', '\n', '\U{0B}', '\U{0C}', '\r', ' ', '\U{85}', '\U{A0}', '\U{1680}', '\U{2000}', '\U{2001}', '\U{2002}',
      '\U{2003}', '\U{2004}', '\U{2005}', '\U{2006}', '\U{2007}', '\U{2008}', '\U{2009}', '\U{200A}', '\U{2028}',
      '\U{2029}', '\U{202F}', '\U{205F}', '\U{3000}']
  {
  }

  predicate AllIntSpace(s: string) {
    forall i | 0 <= i < |s| :: IsIntSpace(s[i])
  }

  lemma {:induction false} TrimPadded(u: string, s: string, v: string)
    requires AllIntSpace(u) && AllIntSpace(v) && s != "" && !IsIntSpace(s[0]) && !IsIntSpace(s[|s| - 1])
    ensures Trim(u + s + v) == s
    decreases |u| + |v|
  {
    var t := u + s + v;
    if u != "" {
      assert t[1..] == u[1..] + s + v;
      TrimPadded(u[1..], s, v);
    } else if v != "" {
      assert t[..|t| - 1] == u + s + v[..|v| - 1];
      TrimPadded(u, s, v[..|v| - 1]);
    } else {
      assert t == s;
    }
  }

  /** A numeral with or without a sign, between white space, is its value. */
  lemma SignedValue(u: string, s: string, v: string)
    requires AllIntSpace(u) && AllIntSpace(v) && IsNumeral(s)
    ensures ParseInt(u + s + v) == Some(Value(s))
    ensures ParseInt(u + ("+" + s) + v) == Some(Value(s))
    ensures ParseInt(u + ("-" + s) + v) == Some(-(Value(s) as int))
  {
    TrimPadded(u, s, v);
    var plus, minus := "+" + s, "-" + s;
    assert plus[1..] == s && minus[1..] == s;
    assert plus[|plus| - 1] == s[|s| - 1] == minus[|minus| - 1];
    TrimPadded(u, plus, v);
    TrimPadded(u, minus, v);
    DigitsValue(s);
    hide Trim, Digits, Value;
  }

  /** Printed numbers are written with decimal digits, the most significant first, and a minus before
      negative ones only. */
  lemma PrintedDigits(n: nat, d: nat)
    requires d < 10
    ensures PrintNat(d) == ["0123456789"[d]]
    ensures n > 0 ==> PrintNat(10 * n + d) == PrintNat(n) + ["0123456789"[d]]
    ensures PrintInt(n) == PrintNat(n)
    ensures n > 0 ==> PrintInt(0 - n) == "-" + PrintNat(n)
  {
    assert (10 * n + d) / 10 == n && (10 * n + d) % 10 == d;
  }

  // The whole file

  /** `int` takes this text. */
  ghost predicate IsInteger(s: string) {
    exists u: string, t: string, v: string ::
      s == u + t + v && AllIntSpace(u) && AllIntSpace(v)
      && (IsNumeral(t) || (t != "" && t[0] in "+-" && IsNumeral(t[1..])))
  }

  lemma {:induction false} TrimExactly(s: string) returns (u: string, v: string)
    ensures s == u + Trim(s) + v && AllIntSpace(u) && AllIntSpace(v)
    decreases |s|
  {
    if s != "" && IsIntSpace(s[0]) {
      u, v := TrimExactly(s[1..]);
      assert s == [s[0]] + s[1..];
      u := [s[0]] + u;
    } else if s != "" && IsIntSpace(s[|s| - 1]) {
      u, v := TrimExactly(s[..|s| - 1]);
      assert s == s[..|s| - 1] + [s[|s| - 1]];
      v := v + [s[|s| - 1]];
    } else {
      u, v := "", "";
    }
  }

  lemma IntegerExactly(s: string)
    ensures IsInteger(s) <==> ParseInt(s).Some?
  {
    ReadableExactly(s);
    if ParseInt(s).Some? {
      var u, v := TrimExactly(s);
      var t := Trim(s);
      assert IsNumeral(t) || (t != "" && t[0] in "+-" && IsNumeral(t[1..]));
    }
    if u: string, t: string, v: string :|
      s == u + t + v && AllIntSpace(u) && AllIntSpace(v)
      && (IsNumeral(t) || (t != "" && t[0] in "+-" && IsNumeral(t[1..]))) {
      var n := if IsNumeral(t) then t else t[1..];
      SignedValue(u, n, v);
      assert t == n || t == "+" + n || t == "-" + n;
    }
  }

  /** A bound that is given but is no integer. */
  ghost predicate Unreadable(bound: string) {
    bound != "" && !IsInteger(bound)
  }

  /** The bounds of a header: what stands between the dashes once the unit is taken out. */
  ghost predicate AreBounds(header: string, bounds: seq<string>) {
    bounds == Split(ReplaceAll(header, "bytes=", ""), "-")
  }

  ghost predicate HasUnreadableBound(header: string) {
    exists bounds :: AreBounds(header, bounds)
      && (Unreadable(bounds[0]) || (|bounds| > 1 && Unreadable(bounds[1])))
  }

  lemma UnreadableExactly(header: string, size: nat)
    ensures Requested(header, size).None? <==> HasUnreadableBound(header)
  {
    var bounds := Split(ReplaceAll(header, "bytes=", ""), "-");
    IntegerExactly(bounds[0]);
    if |bounds| > 1 {
      IntegerExactly(bounds[1]);
    }
    assert AreBounds(header, bounds);
    hide IsInteger, ParseInt, Split, ReplaceAll;
  }

  /** A request without the header, or with a bound that is no integer, is answered with the whole file and
      its length; any other with 206. Headers other than the two about the range stay as they were. */
  lemma WholeExactly(file: seq<byte>, base: map<string, string>, header: Option<string>)
    ensures var r := Served(file, base, header);
            && (r.status == 200 || r.status == 206)
            && (r.status == 200 <==> header.None? || header.value == "" || HasUnreadableBound(header.value))
            && (r.status == 200 ==> r.body == file && r.headers == base["Content-Length" := PrintInt(|file|)])
            && forall name | name !in {"Content-Length", "Content-Range"} ::
                 (name in r.headers <==> name in base) && (name in base ==> r.headers[name] == base[name])
  {
    if header.Some? && header.value != "" {
      UnreadableExactly(header.value, |file|);
    }
    hide Requested, HasUnreadableBound, PrintInt, Slice;
  }
}
