/** SQL `LIKE` (ISO/IEC 9075-2:2003, section 8.5) and the three patterns the filters build. */
module Like {
  import opened Text

  /** The escape character of the database: PostgreSQL has the backslash, SQLite none. */
  datatype Escape = NoEscape | Escape(c: char)

  predicate IsEscape(esc: Escape, c: char) {
    esc == Escape(c) && c != '%' && c != '_'
  }

  /** `s LIKE p`. A pattern ending in a bare escape character matches nothing. */
  predicate Matches(p: string, s: string, esc: Escape)
    decreases |p| + |s|
  {
    if p == "" then s == ""
    else if IsEscape(esc, p[0]) then
      |p| > 1 && s != "" && s[0] == p[1] && Matches(p[2..], s[1..], esc)
    else if p[0] == '%' then
      Matches(p[1..], s, esc) || (s != "" && Matches(p, s[1..], esc))
    else
      s != "" && (p[0] == '_' || s[0] == p[0]) && Matches(p[1..], s[1..], esc)
  }

  /** No character of `v` is special in a pattern. */
  predicate Plain(v: string, esc: Escape) {
    forall c | c in v :: c != '%' && c != '_' && !IsEscape(esc, c)
  }

  predicate StartsWith(s: string, v: string) {
    v <= s
  }

  predicate EndsWith(s: string, v: string) {
    |v| <= |s| && s[|s| - |v|..] == v
  }

  // Plain values

  /** What is special where the backslash escapes, and where nothing does. */
  lemma PlainExactly(v: string)
    ensures Plain(v, Escape('\\')) <==> '%' !in v && '_' !in v && '\\' !in v
    ensures Plain(v, NoEscape) <==> '%' !in v && '_' !in v
  {
  }

  /** A percent sign, an underscore or an escape character behind an escape character stands for itself; where
      nothing escapes, the backslash does. */
  lemma EscapedExactly(c: char, d: char, s: string)
    ensures c != '%' && c != '_' ==> (Matches([c, d], s, Escape(c)) <==> s == [d])
    ensures Matches("\\", s, NoEscape) <==> s == "\\"
  {
    assert [c, d][1..] == [d] && [c, d][2..] == [];
  }

  lemma {:induction false} PlainPrefix(v: string, rest: string, s: string, esc: Escape)
    requires Plain(v, esc)
    ensures Matches(v + rest, s, esc) <==> v <= s && Matches(rest, s[|v|..], esc)
  {
    if v == "" {
      assert v + rest == rest;
    } else {
      assert (v + rest)[1..] == v[1..] + rest;
      assert v[0] in v && forall c | c in v[1..] :: c in v;
      if s != "" && s[0] == v[0] {
        PlainPrefix(v[1..], rest, s[1..], esc);
        assert v[1..] <= s[1..] <==> v <= s;
      }
    }
  }

  lemma {:induction false} PercentMatchesAny(p: string, s: string, esc: Escape)
    ensures Matches("%" + p, s, esc) <==> exists i | 0 <= i <= |s| :: Matches(p, s[i..], esc)
  {
    assert ("%" + p)[1..] == p && s[0..] == s;
    if s != "" {
      PercentMatchesAny(p, s[1..], esc);
      forall i | 0 < i <= |s|
        ensures s[i..] == s[1..][i - 1..]
      {
      }
      if i :| 0 <= i <= |s[1..]| && Matches(p, s[1..][i..], esc) {
        assert Matches(p, s[i + 1..], esc);
      }
    }
  }

  lemma PercentAlone(s: string, esc: Escape)
    ensures Matches("%", s, esc)
  {
    PercentMatchesAny("", s, esc);
    assert "%" + "" == "%" && Matches("", s[|s|..], esc);
  }

  lemma PlainStartsWith(v: string, s: string, esc: Escape)
    requires Plain(v, esc)
    ensures Matches(v + "%", s, esc) <==> StartsWith(s, v)
  {
    PlainPrefix(v, "%", s, esc);
    if v <= s {
      PercentAlone(s[|v|..], esc);
    }
  }

  lemma PlainEndsWith(v: string, s: string, esc: Escape)
    requires Plain(v, esc)
    ensures Matches("%" + v, s, esc) <==> EndsWith(s, v)
  {
    PercentMatchesAny(v, s, esc);
    forall i | 0 <= i <= |s|
      ensures Matches(v, s[i..], esc) <==> s[i..] == v
    {
      PlainPrefix(v, "", s[i..], esc);
      assert v + "" == v;
    }
  }

  lemma PlainContains(v: string, s: string, esc: Escape)
    requires Plain(v, esc)
    ensures Matches("%" + v + "%", s, esc) <==> Contains(s, v)
  {
    assert "%" + v + "%" == "%" + (v + "%");
    PercentMatchesAny(v + "%", s, esc);
    forall i | 0 <= i <= |s|
      ensures Matches(v + "%", s[i..], esc) <==> OccursAt(v, s, i)
    {
      PlainStartsWith(v, s[i..], esc);
      OccursInTail(v, s, i, 0);
    }
  }

  // Values that are not plain

  /** Any character but `c`. */
  function Other(c: char): char {
    if c == 'x' then 'y' else 'x'
  }

  /** A short text matching the pattern `v + "%"`. */
  function Sample(v: string, esc: Escape): string {
    if v == "" then ""
    else if IsEscape(esc, v[0]) then
      if |v| == 1 then "%" else [v[1]] + Sample(v[2..], esc)
    else (if v[0] == '%' || v[0] == '_' then [Other(v[0])] else [v[0]]) + Sample(v[1..], esc)
  }

  /** The sample matches, is no longer than `v`, and equals `v` only if `v` is plain. */
  lemma {:induction false} SampleMatches(v: string, esc: Escape)
    ensures Matches(v + "%", Sample(v, esc), esc)
    ensures |Sample(v, esc)| <= |v|
    ensures Sample(v, esc) == v ==> Plain(v, esc)
    decreases |v|
  {
    var s := Sample(v, esc);
    if v == "" {
      assert v + "%" == "%";
      PercentAlone("", esc);
    } else if IsEscape(esc, v[0]) {
      if |v| > 1 {
        SampleMatches(v[2..], esc);
        assert (v + "%")[2..] == v[2..] + "%" && s[1..] == Sample(v[2..], esc);
      }
    } else {
      SampleMatches(v[1..], esc);
      assert (v + "%")[1..] == v[1..] + "%" && s[1..] == Sample(v[1..], esc);
      if v[0] == '%' {
        assert Matches(v + "%", s[1..], esc);
      }
    }
  }

  /** `v%` selects exactly the texts starting with `v` if and only if `v` is plain. */
  lemma StartsWithExactlyWhenPlain(v: string, esc: Escape)
    ensures (forall s :: Matches(v + "%", s, esc) <==> StartsWith(s, v)) <==> Plain(v, esc)
  {
    if Plain(v, esc) {
      forall s {
        PlainStartsWith(v, s, esc);
      }
    } else {
      SampleMatches(v, esc);
      assert !StartsWith(Sample(v, esc), v);
    }
  }

  /** `%v%` selects exactly the texts containing `v` if and only if `v` is plain. */
  lemma ContainsExactlyWhenPlain(v: string, esc: Escape)
    ensures (forall s :: Matches("%" + v + "%", s, esc) <==> Contains(s, v)) <==> Plain(v, esc)
  {
    if Plain(v, esc) {
      forall s {
        PlainContains(v, s, esc);
      }
    } else {
      var s := Sample(v, esc);
      SampleMatches(v, esc);
      assert "%" + v + "%" == "%" + (v + "%") && s[0..] == s;
      PercentMatchesAny(v + "%", s, esc);
      assert Matches("%" + v + "%", s, esc);
      assert !Contains(s, v);
    }
  }

  /** `%v` selects exactly the texts ending with `v` if and only if `v` is plain. */
  lemma EndsWithExactlyWhenPlain(v: string, esc: Escape)
    ensures (forall s :: Matches("%" + v, s, esc) <==> EndsWith(s, v)) <==> Plain(v, esc)
  {
    if Plain(v, esc) {
      forall s {
        PlainEndsWith(v, s, esc);
      }
    } else if Dangling(v, esc) {
      DanglingMatchesNothing(v, v, esc);
      assert EndsWith(v, v) && !Matches("%" + v, v, esc);
    } else {
      var s := Sample(v, esc);
      SampleMatches(v, esc);
      SampleMatchesWhole(v, esc);
      PercentMatchesAny(v, s, esc);
      assert s[0..] == s;
      assert Matches("%" + v, s, esc) && !EndsWith(s, v);
    }
  }

  /** The pattern ends in an escape character that escapes nothing. */
  predicate Dangling(v: string, esc: Escape) {
    if v == "" then false
    else if IsEscape(esc, v[0]) then |v| == 1 || Dangling(v[2..], esc)
    else Dangling(v[1..], esc)
  }

  lemma {:induction false} DanglingNoMatch(v: string, s: string, esc: Escape)
    requires Dangling(v, esc)
    ensures !Matches(v, s, esc)
    decreases |v| + |s|
  {
    if IsEscape(esc, v[0]) {
      if |v| > 1 && s != "" {
        DanglingNoMatch(v[2..], s[1..], esc);
      }
    } else if v[0] == '%' {
      DanglingNoMatch(v[1..], s, esc);
      if s != "" {
        DanglingNoMatch(v, s[1..], esc);
      }
    } else if s != "" {
      DanglingNoMatch(v[1..], s[1..], esc);
    }
  }

  lemma DanglingMatchesNothing(v: string, s: string, esc: Escape)
    requires Dangling(v, esc)
    ensures !Matches("%" + v, s, esc)
  {
    PercentMatchesAny(v, s, esc);
    forall i | 0 <= i <= |s| {
      DanglingNoMatch(v, s[i..], esc);
    }
  }

  lemma {:induction false} SampleMatchesWhole(v: string, esc: Escape)
    requires !Dangling(v, esc)
    ensures Matches(v, Sample(v, esc), esc)
    decreases |v|
  {
    var s := Sample(v, esc);
    if v != "" && IsEscape(esc, v[0]) {
      SampleMatchesWhole(v[2..], esc);
      assert s[1..] == Sample(v[2..], esc);
    } else if v != "" {
      SampleMatchesWhole(v[1..], esc);
      assert s[1..] == Sample(v[1..], esc);
      if v[0] == '%' {
        assert Matches(v, s[1..], esc);
      }
    }
  }
}
