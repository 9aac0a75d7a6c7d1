/** The operator table name by name (app/crud_base.py, the docstring of `apply_filters`): what each
    name asks of a text, without the code's own table of branches. */
module FilterTable {
  import opened Options
  import opened Text
  import opened TextLaws
  import opened Like
  import opened FilterSql
  import opened FilterMeaning

  /** In dictionary order: a proper beginning, or smaller where they first differ. */
  ghost predicate Before(a: string, b: string) {
    exists n: nat :: FirstDifference(a, b, n)
  }

  ghost predicate FirstDifference(a: string, b: string, n: nat) {
    && n <= |a| && n < |b| && a[..n] == b[..n]
    && (n == |a| || a[n] < b[n])
  }

  lemma {:induction false} LessExactly(a: string, b: string)
    ensures Less(a, b) <==> Before(a, b)
  {
    if Less(a, b) {
      if a == "" || a[0] < b[0] {
        assert FirstDifference(a, b, 0);
      } else {
        LessExactly(a[1..], b[1..]);
        var n: nat :| FirstDifference(a[1..], b[1..], n);
        assert a[..n + 1] == [a[0]] + a[1..][..n] && b[..n + 1] == [b[0]] + b[1..][..n];
        assert FirstDifference(a, b, n + 1);
      }
    }
    if n: nat :| FirstDifference(a, b, n) {
      if n > 0 {
        assert a[0] == a[..n][0] && b[0] == b[..n][0];
        assert a[1..][..n - 1] == a[..n][1..] && b[1..][..n - 1] == b[..n][1..];
        assert FirstDifference(a[1..], b[1..], n - 1);
        LessExactly(a[1..], b[1..]);
      }
    }
  }

  /** The operators on one text, of a text that is not NULL. */
  lemma TableOfEquality(v: string, s: string)
    ensures Documented("$eq", Str(v), Some(s)) <==> s == v
    ensures Documented("$ne", Str(v), Some(s)) <==> s != v
  {
  }

  /** The comparisons. */
  lemma TableOfComparisons(v: string, s: string)
    ensures Documented("$lt", Str(v), Some(s)) <==> Before(s, v)
    ensures Documented("$lte", Str(v), Some(s)) <==> s == v || Before(s, v)
    ensures Documented("$gt", Str(v), Some(s)) <==> Before(v, s)
    ensures Documented("$gte", Str(v), Some(s)) <==> s == v || Before(v, s)
  {
    LessExactly(s, v);
    LessExactly(v, s);
    hide Less, Before;
  }

  ghost predicate Begins(s: string, v: string) {
    exists w: string :: s == v + w
  }

  ghost predicate Ends(s: string, v: string) {
    exists w: string :: s == w + v
  }

  lemma EndsExactly(s: string, v: string)
    ensures StartsWith(s, v) <==> Begins(s, v)
    ensures EndsWith(s, v) <==> Ends(s, v)
  {
    if v <= s { assert s == v + s[|v|..]; }
    if EndsWith(s, v) { assert s == s[..|s| - |v|] + v; }
    if w: string :| s == w + v { assert s[|s| - |v|..] == v; }
  }

  /** The searches. */
  lemma TableOfSearches(v: string, s: string)
    ensures Documented("$contains", Str(v), Some(s)) <==> Contains(s, v)
    ensures Documented("$notContains", Str(v), Some(s)) <==> !Contains(s, v)
    ensures Documented("$startsWith", Str(v), Some(s)) <==> Begins(s, v)
    ensures Documented("$endsWith", Str(v), Some(s)) <==> Ends(s, v)
  {
    EndsExactly(s, v);
    hide Contains, StartsWith, EndsWith, Begins, Ends;
  }

  /** The same without regard to case. */
  lemma TableOfEqualityWithoutCase(v: string, s: string)
    ensures Documented("$eqi", Str(v), Some(s)) <==> Lower(s) == Lower(v)
    ensures Documented("$nei", Str(v), Some(s)) <==> Lower(s) != Lower(v)
  {
    hide Lower;
  }

  lemma TableOfContainmentWithoutCase(v: string, s: string)
    ensures Documented("$containsi", Str(v), Some(s)) <==> Contains(Lower(s), Lower(v))
    ensures Documented("$notContainsi", Str(v), Some(s)) <==> !Contains(Lower(s), Lower(v))
  {
    hide Lower, Contains;
  }

  lemma TableOfEndsWithoutCase(v: string, s: string)
    ensures Documented("$startsWithi", Str(v), Some(s)) <==> Begins(Lower(s), Lower(v))
    ensures Documented("$endsWithi", Str(v), Some(s)) <==> Ends(Lower(s), Lower(v))
  {
    EndsExactly(Lower(s), Lower(v));
    hide Lower, StartsWith, EndsWith, Begins, Ends;
  }

  /** The names in the table that test a text, rather than join filters. */
  lemma TestsExactly(name: string, v: Operand)
    ensures IsTest(name, v)
       <==> v.Str? && (name in ["$eq", "$ne", "$lt", "$lte", "$gt", "$gte", "$in", "$notIn", "$contains",
                                "$notContains", "$null", "$notNull", "$between", "$startsWith", "$endsWith"]
                       || name in ["$eqi", "$nei", "$containsi", "$notContainsi", "$startsWithi", "$endsWithi"])
  {
  }

  /** NULL, which only `$null` selects. */
  lemma TableOnNull(name: string, v: string, s: string)
    ensures Documented("$null", Str(v), None) && !Documented("$null", Str(v), Some(s))
    ensures !Documented("$notNull", Str(v), None) && Documented("$notNull", Str(v), Some(s))
    ensures IsTest(name, Str(v)) && name != "$null" ==> !Documented(name, Str(v), None)
  {
  }

  predicate NoComma(parts: seq<string>) {
    forall part | part in parts :: ',' !in part
  }

  lemma TableOfMembership(v: string, s: string)
    ensures Documented("$in", Str(v), Some(s)) <==> s in Split(v, ",")
    ensures Documented("$notIn", Str(v), Some(s)) <==> s !in Split(v, ",")
  {
    hide Split;
  }

  /** Lists are written with commas. */
  lemma TableOnLists(parts: seq<string>, s: string)
    requires parts != [] && NoComma(parts)
    ensures Documented("$in", Str(Join(parts, ",")), Some(s)) <==> s in parts
    ensures Documented("$notIn", Str(Join(parts, ",")), Some(s)) <==> s !in parts
  {
    SplitJoin(parts, ",");
    hide Join, Split, Documented;
    TableOfMembership(Join(parts, ","), s);
  }

  /** Two bounds, with any white space around them. */
  ghost predicate PaddedBounds(v: string, low: string, high: string) {
    exists a: string, b: string :: v == a + "," + b && Around(a, low) && Around(b, high)
  }

  /** `a` is `t`, which has no white space at its ends and no comma, between white space. */
  ghost predicate Around(a: string, t: string) {
    Trimmed(t) && ',' !in t && exists u: string, w: string :: Pads(u, t, w, a)
  }

  lemma AroundStrips(a: string, t: string)
    requires Around(a, t)
    ensures Strip(a) == t && ',' !in a
  {
    var u: string, w: string :| Pads(u, t, w, a);
    StripPadded(u, t, w);
  }

  lemma BoundsSplit(v: string, low: string, high: string)
    requires PaddedBounds(v, low, high)
    ensures |Split(v, ",")| == 2 && Strip(Split(v, ",")[0]) == low && Strip(Split(v, ",")[1]) == high
  {
    var a: string, b: string :| v == a + "," + b && Around(a, low) && Around(b, high);
    AroundStrips(a, low);
    AroundStrips(b, high);
    hide Strip, Around, Split;
    assert Join([a, b], ",") == v;
    SplitJoin([a, b], ",");
  }

  /** `$between` selects what lies between the bare bounds, however they are padded. */
  lemma BetweenPadded(k: string, v: string, low: string, high: string, s: string)
    requires PaddedBounds(v, low, high)
    ensures CompileNamed(k, "$between", Str(v)) == Ok([Between(k, low, high)])
    ensures Documented("$between", Str(v), Some(s))
       <==> (s == low || Before(low, s)) && (s == high || Before(s, high))
  {
    BoundsSplit(v, low, high);
    LessExactly(low, s);
    LessExactly(s, high);
    hide Less, Before, Strip, Split, PaddedBounds;
  }

  lemma TenTwentyPadded()
    ensures PaddedBounds("10, 20", "10", "20")
  {
    assert Pads("", "10", "", "10") && Pads(" ", "20", "", " 20");
    assert Around("10", "10") && Around(" 20", "20");
    assert "10, 20" == "10" + "," + " 20";
  }

  lemma FifteenLies()
    ensures Less("10", "15") && Less("15", "20")
  {
    assert "10"[1..] == "0" && "15"[1..] == "5" && Less("0", "5");
  }

  /** `10, 20` selects 15. */
  lemma FifteenIsBetween(k: string, esc: Escape)
    ensures CompileNamed(k, "$between", Str("10, 20")) == Ok([Between(k, "10", "20")])
    ensures Selected([Between(k, "10", "20")], map[k := Some("15")], esc)
  {
    TenTwentyPadded();
    FifteenLies();
    hide Less, PaddedBounds, CompileNamed, Documented;
    BetweenPadded(k, "10, 20", "10", "20", "15");
    TextSelected(k, map[k := Some("15")], esc, Between(k, "10", "20"), false);
  }

  /** What a single operator raises. */
  lemma OperatorRaises(k: string, name: string, v: Operand)
    ensures CompileNamed(k, name, v) == Err(ValueError)
       <==> name == "$between" && v.Str? && |Split(v.text, ",")| != 2
    ensures CompileNamed(k, name, v) == Err(AttributeError)
       <==> (name == "$in" || name == "$notIn" || name == "$between") && v.Nested?
  {
    hide Split;
  }

  /** A block list raises AttributeError, and nothing else, exactly when a block names a column the model
      does not have. */
  lemma BlocksRaise(model: set<string>, field: string, blocks: seq<seq<(string, Cell)>>)
    requires field == "$or" || field == "$and"
    ensures CompileEntry(model, field, Blocks(blocks)).Err?
       <==> exists b, e :: b in blocks && e in b && e.0 !in model
    ensures CompileEntry(model, field, Blocks(blocks)).Err? ==>
              CompileEntry(model, field, Blocks(blocks)) == Err(AttributeError)
  {
    if b, e :| b in blocks && e in b && e.0 !in model {
      assert !Known(model, b);
    }
  }
}
