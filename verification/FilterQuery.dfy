/** From the query string to the selected rows: what `apply_filters` makes of the dictionary that
    `parse_filters` reads (`get_filter_params`). */
module FilterQuery {
  import opened Options
  import opened Text
  import opened Like
  import opened FilterSql
  import opened FilterMeaning
  import Tree = FilterTree

  // Dictionaries as conditions

  ghost predicate Names<T>(entries: seq<(string, T)>, keys: set<string>) {
    && (forall i, j | 0 <= i < j < |entries| :: entries[i].0 != entries[j].0)
    && (forall e | e in entries :: e.0 in keys)
    && forall k | k in keys :: exists i :: 0 <= i < |entries| && entries[i].0 == k
  }

  /** `v` is the value `t`; the members of a dictionary stand in any order, on which its text depends. */
  ghost predicate IsOperand(v: Operand, t: Tree.Tree)
    decreases t
  {
    match t
    case Leaf(s) => v == Str(s)
    case Node(kids) =>
      v.Nested? && Names(v.members, kids.Keys)
      && forall m | m in v.members :: m.0 in kids && IsOperand(m.1, kids[m.0])
  }

  ghost predicate IsCondition(c: Condition, t: Tree.Tree) {
    match t
    case Leaf(s) => c == Scalar(s)
    case Node(kids) =>
      c.Operators? && Names(c.ops, kids.Keys)
      && forall o | o in c.ops :: o.0 in kids && IsOperand(o.1, kids[o.0])
  }

  /** `cs` is the dictionary `t`, in any order. */
  ghost predicate IsFilters(cs: Conditions, t: Tree.Tree) {
    && t.Node? && Names(cs, t.kids.Keys)
    && forall e | e in cs :: e.0 in t.kids && IsCondition(e.1, t.kids[e.0])
  }

  ghost function KeySeq(keys: set<string>): (s: seq<string>)
    ensures forall k :: k in s <==> k in keys
    ensures forall i, j | 0 <= i < j < |s| :: s[i] != s[j]
  {
    if keys == {} then []
    else
      var k :| k in keys;
      [k] + KeySeq(keys - {k})
  }

  lemma NamesOf<T>(entries: seq<(string, T)>, keys: set<string>)
    requires |entries| == |KeySeq(keys)| && forall i | 0 <= i < |entries| :: entries[i].0 == KeySeq(keys)[i]
    ensures Names(entries, keys)
  {
    forall e | e in entries
      ensures e.0 in keys
    {
      var i :| 0 <= i < |entries| && entries[i] == e;
      assert KeySeq(keys)[i] in KeySeq(keys);
    }
    forall k | k in keys
      ensures exists i :: 0 <= i < |entries| && entries[i].0 == k
    {
      assert k in KeySeq(keys);
      var i :| 0 <= i < |entries| && KeySeq(keys)[i] == k;
      assert entries[i].0 == k;
    }
  }

  lemma {:induction false} SomeOperand(t: Tree.Tree) returns (v: Operand)
    ensures IsOperand(v, t)
    decreases t, 1
  {
    match t
    case Leaf(s) => v := Str(s);
    case Node(kids) =>
      var members := SomeMembers(t);
      v := Nested(members, "");
  }

  lemma SomeMembers(t: Tree.Tree) returns (ms: seq<(string, Operand)>)
    requires t.Node?
    ensures Names(ms, t.kids.Keys) && forall m | m in ms :: m.0 in t.kids && IsOperand(m.1, t.kids[m.0])
    decreases t, 0
  {
    var keys := KeySeq(t.kids.Keys);
    ms := [];
    for n := 0 to |keys|
      invariant |ms| == n && forall i | 0 <= i < n :: ms[i].0 == keys[i]
      invariant forall m | m in ms :: m.0 in t.kids && IsOperand(m.1, t.kids[m.0])
    {
      assert keys[n] in keys;
      var v := SomeOperand(t.kids[keys[n]]);
      ms := ms + [(keys[n], v)];
    }
    NamesOf(ms, t.kids.Keys);
  }

  lemma SomeCondition(t: Tree.Tree) returns (c: Condition)
    ensures IsCondition(c, t)
  {
    match t
    case Leaf(s) => c := Scalar(s);
    case Node(_) =>
      var members := SomeMembers(t);
      c := Operators(members);
  }

  /** Every dictionary that is read can be taken as conditions. */
  lemma SomeFilters(t: Tree.Tree) returns (cs: Conditions)
    requires t.Node?
    ensures IsFilters(cs, t)
  {
    var keys := KeySeq(t.kids.Keys);
    cs := [];
    for n := 0 to |keys|
      invariant |cs| == n && forall i | 0 <= i < n :: cs[i].0 == keys[i]
      invariant forall e | e in cs :: e.0 in t.kids && IsCondition(e.1, t.kids[e.0])
    {
      assert keys[n] in keys;
      var c := SomeCondition(t.kids[keys[n]]);
      cs := cs + [(keys[n], c)];
    }
    NamesOf(cs, t.kids.Keys);
  }

  lemma Named<T>(entries: seq<(string, T)>, keys: set<string>, k: string) returns (e: (string, T))
    requires Names(entries, keys) && k in keys
    ensures e in entries && e.0 == k
  {
    var i :| 0 <= i < |entries| && entries[i].0 == k;
    e := entries[i];
  }

  // Which query strings raise

  /** The value of an operator that the operator cannot take apart. */
  predicate Unreadable(name: string, t: Tree.Tree) {
    name in OPERATORS
    && match OPERATORS[name]
       case InOp => t.Node?
       case NotInOp => t.Node?
       case BetweenOp => t.Node? || |Split(t.text, ",")| != 2
       case _ => false
  }

  /** What stands under one key makes `apply_filters` raise. */
  ghost predicate Raises(model: set<string>, field: string, t: Tree.Tree) {
    if field == "$or" || field == "$and" then t != Tree.Leaf("")
    else field in model && t.Node? && exists op :: op in t.kids && Unreadable(op, t.kids[op])
  }

  /** `$or` and `$and` read from a query string raise, unless all that is given is an empty text. */
  lemma BlocksFromQuery(model: set<string>, field: string, c: Condition, t: Tree.Tree)
    requires field == "$or" || field == "$and"
    requires IsCondition(c, t) && t != Tree.Node(map[])
    ensures CompileEntry(model, field, c)
         == if t == Tree.Leaf("") then Ok([if field == "$or" then Or([]) else And([])]) else Err(AttributeError)
  {
    if t.Node? {
      assert t.kids.Keys != {};
      var k :| k in t.kids.Keys;
      var o := Named(c.ops, t.kids.Keys, k);
    } else if t.text == "" {
      assert CompileBlocks(model, []).Ok? && CompileBlocks(model, []).value == [];
    }
  }

  lemma ConditionRaises(model: set<string>, field: string, c: Condition, t: Tree.Tree)
    requires IsCondition(c, t) && t != Tree.Node(map[])
    ensures Malformed(model, field, c) <==> Raises(model, field, t)
  {
    if field == "$or" || field == "$and" {
      if t.Node? {
        assert t.kids.Keys != {};
        var k :| k in t.kids.Keys;
        var o := Named(c.ops, t.kids.Keys, k);
      }
    } else if t.Node? {
      forall o | o in c.ops
        ensures BadOperand(o.0, o.1) <==> Unreadable(o.0, t.kids[o.0])
      {
        assert IsOperand(o.1, t.kids[o.0]);
      }
      if op :| op in t.kids && Unreadable(op, t.kids[op]) {
        var o := Named(c.ops, t.kids.Keys, op);
      }
    }
  }

  /** Whatever the query string, filtering by the dictionary read from it raises if and only if it holds
      `$or` or `$and` with anything but an empty text, or an operator of a known field that cannot
      take its value apart. */
  lemma QueryRaises(params: seq<Tree.Param>, t: Tree.Tree, model: set<string>, cs: Conditions)
    requires Tree.Parse(params) == Tree.Ok(t) && IsFilters(cs, t)
    ensures Compile(model, cs).Err? <==> exists k :: k in t.kids && Raises(model, k, t.kids[k])
  {
    CompileFails(model, cs);
    Tree.ParseNoEmpty(params);
    forall e | e in cs
      ensures Malformed(model, e.0, e.1) <==> Raises(model, e.0, t.kids[e.0])
    {
      ConditionRaises(model, e.0, e.1, t.kids[e.0]);
    }
    if k :| k in t.kids && Raises(model, k, t.kids[k]) {
      var e := Named(cs, t.kids.Keys, k);
    }
  }

  function OrTree(): Tree.Tree {
    Tree.Node(map["$or" := Tree.Node(map["0" := Tree.Node(map["name" := Tree.Leaf("x")])])])
  }

  lemma OrParses()
    ensures Tree.Parse([("filters[$or][0][name]", "x")]) == Tree.Ok(OrTree())
  {
    var path := ["$or", "0", "name"];
    var params := [("filters[$or][0][name]", "x")];
    assert path[1..] == ["0", "name"] && path[1..][1..] == ["name"];
    assert Join(path, "][") == "$or][0][name" by {
      assert Join(["name"], "][") == "name";
      assert Join(path[1..], "][") == "0][name";
    }
    assert Tree.Key(path) == "filters[$or][0][name]";
    Tree.KeyParts(path);
    hide Join, Tree.Key, Tree.Parts, Tree.IsFilterKey;
    assert params[..0] == [];
    assert Tree.Insert(Tree.Node(map[]), path[1..][1..], "x") == Tree.Ok(Tree.Node(map["name" := Tree.Leaf("x")]));
  }

  /** `filters[$or][0][name]=x`, the way to write a disjunction, raises AttributeError. */
  lemma OrRaises(model: set<string>, t: Tree.Tree, cs: Conditions)
    requires Tree.Parse([("filters[$or][0][name]", "x")]) == Tree.Ok(t) && IsFilters(cs, t)
    ensures Compile(model, cs) == Err(AttributeError)
  {
    OrParses();
    hide Tree.Parse, IsCondition, CompileEntry;
    var block := t.kids["$or"];
    assert "$or" in t.kids && "0" in block.kids;
    var e := Named(cs, t.kids.Keys, "$or");
    assert forall i | 0 <= i < |cs| :: cs[i] in cs && cs[i].0 == "$or";
    assert cs[0] == e && cs[..0] == [];
    BlocksFromQuery(model, "$or", e.1, block);
    assert Compile(model, cs) == Append(Compile(model, cs[..0]), CompileEntry(model, "$or", e.1));
  }

  // Flat filters, from the query string to the rows

  /** `filters[field][op]=value` */
  datatype Flat = Flat(field: string, op: string, value: string)

  function QueryString(fs: seq<Flat>): (params: seq<Tree.Param>)
    ensures |params| == |fs|
    ensures forall i | 0 <= i < |fs| :: params[i] == (Tree.Key([fs[i].field, fs[i].op]), fs[i].value)
  {
    seq(|fs|, i requires 0 <= i < |fs| => (Tree.Key([fs[i].field, fs[i].op]), fs[i].value))
  }

  /** Names without brackets, and no operator of a field twice. */
  predicate Printable(fs: seq<Flat>) {
    && (forall f | f in fs :: Tree.BracketFree(f.field) && Tree.BracketFree(f.op))
    && forall i, j | 0 <= i < j < |fs| :: !(fs[i].field == fs[j].field && fs[i].op == fs[j].op)
  }

  lemma FlatPath(fs: seq<Flat>, i: nat)
    requires Printable(fs) && i < |fs|
    ensures var key := QueryString(fs)[i].0;
            Tree.IsFilterKey(key) && Tree.Parts(key) == [fs[i].field, fs[i].op]
  {
    var path := [fs[i].field, fs[i].op];
    assert fs[i] in fs;
    Tree.KeyParts(path);
  }

  /** No parameter of a flat filter overrides another. */
  lemma {:induction false} FlatDenoted(fs: seq<Flat>, n: nat, i: nat)
    requires Printable(fs) && i < n <= |fs|
    ensures Tree.Denoted(QueryString(fs)[..n], [fs[i].field, fs[i].op]) == Some(fs[i].value)
  {
    hide Tree.IsFilterKey, Tree.Parts, Tree.Key, QueryString;
    var params, path := QueryString(fs), [fs[i].field, fs[i].op];
    FlatPath(fs, n - 1);
    assert params[..n][..n - 1] == params[..n - 1];
    var last := [fs[n - 1].field, fs[n - 1].op];
    if i < n - 1 {
      assert last != path && !(last < path) by {
        assert last[0] != path[0] || last[1] != path[1];
      }
      FlatDenoted(fs, n - 1, i);
    }
  }

  /** What is denoted comes from one of the filters. */
  lemma FlatSource(fs: seq<Flat>, path: Tree.Path) returns (i: nat)
    requires Printable(fs) && Tree.Denoted(QueryString(fs), path).Some?
    ensures i < |fs| && path == [fs[i].field, fs[i].op]
  {
    var params := QueryString(fs);
    Tree.DenotedSource(params, path);
    i :| 0 <= i < |params| && Tree.IsFilterKey(params[i].0) && Tree.Parts(params[i].0) == path;
    FlatPath(fs, i);
  }

  /** Flat filters are always read, and what is read can be taken as conditions. */
  lemma FlatParses(fs: seq<Flat>) returns (t: Tree.Tree, cs: Conditions)
    requires Printable(fs)
    ensures Tree.Parse(QueryString(fs)) == Tree.Ok(t) && IsFilters(cs, t)
  {
    hide Tree.IsFilterKey, Tree.Parts, Tree.Key, QueryString;
    var params := QueryString(fs);
    Tree.ParseFails(params);
    forall i, j
      ensures !Tree.Conflict(params, i, j)
    {
      if 0 <= i < j < |params| {
        FlatPath(fs, i);
        FlatPath(fs, j);
      }
    }
    t := Tree.Parse(params).value;
    Tree.ParseGet(params, []);
    cs := SomeFilters(t);
  }

  /** The dictionary holds each filter's value under its field and operator. */
  lemma FlatHeld(fs: seq<Flat>, t: Tree.Tree, i: nat)
    requires Printable(fs) && Tree.Parse(QueryString(fs)) == Tree.Ok(t) && i < |fs|
    ensures var f := fs[i];
            t.Node? && f.field in t.kids && t.kids[f.field].Node?
            && f.op in t.kids[f.field].kids && t.kids[f.field].kids[f.op] == Tree.Leaf(f.value)
  {
    var params, path := QueryString(fs), [fs[i].field, fs[i].op];
    assert params[..|fs|] == params;
    FlatDenoted(fs, |fs|, i);
    Tree.ParseGet(params, path);
    Tree.ParseGet(params, []);
    assert path == [fs[i].field] + ([fs[i].op] + []);
    Tree.GetBelow(t, fs[i].field, [fs[i].op] + []);
    var sub := t.kids[fs[i].field];
    if sub.Node? {
      Tree.GetBelow(sub, fs[i].op, []);
    }
  }

  /** It holds nothing else. */
  lemma FlatOnly(fs: seq<Flat>, t: Tree.Tree, field: string)
    requires Printable(fs) && Tree.Parse(QueryString(fs)) == Tree.Ok(t) && t.Node? && field in t.kids
    ensures t.kids[field].Node?
    ensures exists i: nat :: i < |fs| && fs[i].field == field
    ensures forall op | op in t.kids[field].kids :: exists i: nat :: i < |fs| && fs[i].field == field && fs[i].op == op
  {
    var params := QueryString(fs);
    Tree.ParseNoEmpty(params);
    var sub := t.kids[field];
    if sub.Leaf? {
      Tree.ParseGet(params, [field]);
      Tree.GetBelow(t, field, []);
      assert [field] + [] == [field];
      var i := FlatSource(fs, [field]);
      assert false;
    } else {
      assert sub.kids.Keys != {} by {
        assert sub != Tree.Node(map[]);
      }
      forall op | op in sub.kids
        ensures exists i: nat :: i < |fs| && fs[i].field == field && fs[i].op == op
      {
        var rest := Tree.LeafThrough(sub, op);
        Tree.GetBelow(t, field, [op] + rest);
        Tree.ParseGet(params, [field] + ([op] + rest));
        var i := FlatSource(fs, [field] + ([op] + rest));
        assert ([field] + ([op] + rest))[0] == field && ([field] + ([op] + rest))[1] == op;
      }
    }
  }

  /** The operators of columns get what they can use. */
  ghost predicate Usable(fs: seq<Flat>, model: set<string>, esc: Escape) {
    forall f | f in fs && f.field in model && f.op in OPERATORS :: WellUsed(OPERATORS[f.op], Str(f.value), esc)
  }

  /** The operators read for one field are the filters on it. */
  lemma FlatOperators(fs: seq<Flat>, t: Tree.Tree, field: string, c: Condition)
    requires Printable(fs) && Tree.Parse(QueryString(fs)) == Tree.Ok(t) && t.Node? && field in t.kids
    requires IsCondition(c, t.kids[field])
    ensures c.Operators?
    ensures forall o :: o in c.ops <==> o.1.Str? && Flat(field, o.0, o.1.text) in fs
  {
    FlatOnly(fs, t, field);
    var kids := t.kids[field].kids;
    forall o | o in c.ops
      ensures o.1.Str? && Flat(field, o.0, o.1.text) in fs
    {
      var i: nat :| i < |fs| && fs[i].field == field && fs[i].op == o.0;
      FlatHeld(fs, t, i);
      assert IsOperand(o.1, kids[o.0]);
      assert fs[i] in fs;
    }
    forall o: (string, Operand) | o.1.Str? && Flat(field, o.0, o.1.text) in fs
      ensures o in c.ops
    {
      var i :| 0 <= i < |fs| && fs[i] == Flat(field, o.0, o.1.text);
      FlatHeld(fs, t, i);
      var e := Named(c.ops, kids.Keys, o.0);
      assert IsOperand(e.1, kids[o.0]);
    }
  }

  lemma FlatCondition(fs: seq<Flat>, t: Tree.Tree, cs: Conditions, f: Flat) returns (e: (string, Condition))
    requires Printable(fs) && Tree.Parse(QueryString(fs)) == Tree.Ok(t) && IsFilters(cs, t) && f in fs
    ensures e in cs && e.0 == f.field && e.1.Operators? && (f.op, Str(f.value)) in e.1.ops
  {
    var i :| 0 <= i < |fs| && fs[i] == f;
    FlatHeld(fs, t, i);
    e := Named(cs, t.kids.Keys, f.field);
    FlatOperators(fs, t, f.field, e.1);
  }

  /** The rows a flat filter asks for: every operator with a branch, of a column of the model. */
  ghost predicate Wanted(fs: seq<Flat>, model: set<string>, row: Row)
    requires model <= row.Keys
  {
    forall f | f in fs && f.field in model && f.op in OPERATORS :: Documented(f.op, Str(f.value), row[f.field])
  }

  /** The conditions hold the filters and nothing else. */
  lemma FlatConditions(fs: seq<Flat>, t: Tree.Tree, cs: Conditions)
    requires Printable(fs) && forall f | f in fs :: f.field != "$or" && f.field != "$and"
    requires Tree.Parse(QueryString(fs)) == Tree.Ok(t) && IsFilters(cs, t)
    ensures forall e | e in cs ::
              e.0 != "$or" && e.0 != "$and" && e.1.Operators?
              && forall o | o in e.1.ops :: o.1.Str? && Flat(e.0, o.0, o.1.text) in fs
    ensures forall f | f in fs :: exists e :: e in cs && e.0 == f.field && e.1.Operators? && (f.op, Str(f.value)) in e.1.ops
  {
    forall e | e in cs
      ensures e.0 != "$or" && e.0 != "$and" && e.1.Operators?
      ensures forall o | o in e.1.ops :: o.1.Str? && Flat(e.0, o.0, o.1.text) in fs
    {
      FlatOnly(fs, t, e.0);
      FlatOperators(fs, t, e.0, e.1);
      var i: nat :| i < |fs| && fs[i].field == e.0;
      assert fs[i] in fs;
    }
    forall f | f in fs
      ensures exists e :: e in cs && e.0 == f.field && e.1.Operators? && (f.op, Str(f.value)) in e.1.ops
    {
      var e := FlatCondition(fs, t, cs, f);
    }
  }

  /** Flat filters sent as a query string, in any order, and read: compiling them raises if and only if
      a list operator of a known field has a value it cannot take apart. */
  lemma QueryFails(fs: seq<Flat>, t: Tree.Tree, cs: Conditions, model: set<string>)
    requires Printable(fs) && forall f | f in fs :: f.field != "$or" && f.field != "$and"
    requires Tree.Parse(QueryString(fs)) == Tree.Ok(t) && IsFilters(cs, t)
    ensures Compile(model, cs).Err? <==> exists f :: f in fs && f.field in model && BadOperand(f.op, Str(f.value))
  {
    hide Compile, Tree.Parse, QueryString, BadOperand, IsFilters;
    CompileFails(model, cs);
    FlatConditions(fs, t, cs);
  }

  /** Otherwise they select exactly the documented rows. */
  lemma QuerySelects(fs: seq<Flat>, t: Tree.Tree, cs: Conditions, model: set<string>, row: Row, esc: Escape)
    requires Printable(fs) && forall f | f in fs :: f.field != "$or" && f.field != "$and"
    requires Tree.Parse(QueryString(fs)) == Tree.Ok(t) && IsFilters(cs, t)
    requires model <= row.Keys && Usable(fs, model, esc) && Compile(model, cs).Ok?
    ensures Selected(Compile(model, cs).value, row, esc) <==> Wanted(fs, model, row)
  {
    hide Compile, Selected, Tree.Parse, QueryString, IsFilters, Documented, WellUsed;
    FlatConditions(fs, t, cs);
    CompilePreservesMeaning(model, cs, row, esc);
  }
}
