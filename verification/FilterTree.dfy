/** Bracketed query parameters (`filters[author][name]=John`) read into a nested dictionary. */
module FilterTree {
  import opened Options
  import opened Text
  import opened TextLaws

  /** Python raises `TypeError` when the cursor has reached a string and is used as a dictionary. */
  datatype Result<T> = Ok(value: T) | TypeError

  /** The value of a nested dictionary whose leaves are strings. */
  datatype Tree = Leaf(text: string) | Node(kids: map<string, Tree>)

  type Path = seq<string>

  /** One query parameter: its key and its value. */
  type Param = (string, string)

  const PREFIX := "filters["

  // Reading a tree

  /** The string stored at `path`, if `path` leads to a string. */
  function Get(t: Tree, path: Path): Option<string> {
    if path == [] then (if t.Leaf? then Some(t.text) else None)
    else if t.Node? && path[0] in t.kids then Get(t.kids[path[0]], path[1..])
    else None
  }

  /** The subtree at `path`. */
  function Sub(t: Tree, path: Path): Option<Tree> {
    if path == [] then Some(t)
    else if t.Node? && path[0] in t.kids then Sub(t.kids[path[0]], path[1..])
    else None
  }

  // Keys and paths

  predicate IsFilterKey(key: string) {
    |key| > |PREFIX| && key[..|PREFIX|] == PREFIX && key[|key| - 1] == ']'
  }

  function Parts(key: string): (path: Path)
    requires IsFilterKey(key)
    ensures path != []
  {
    Split(key[|PREFIX|..|key| - 1], "][")
  }

  function Key(path: Path): string {
    PREFIX + Join(path, "][") + "]"
  }

  predicate BracketFree(s: string) {
    '[' !in s && ']' !in s
  }

  /** Printing a path as a key and reading the key gives the path back. */
  lemma KeyParts(path: Path)
    requires path != [] && forall part | part in path :: BracketFree(part)
    ensures IsFilterKey(Key(path)) && Parts(Key(path)) == path
  {
    var key := Key(path);
    assert key[..|PREFIX|] == PREFIX;
    assert key[|PREFIX|..|key| - 1] == Join(path, "][");
    SplitJoin(path, "][");
  }

  // One parameter, as a function

  /** The dictionary after one parameter. */
  function Insert(t: Tree, path: Path, v: string): Result<Tree>
    requires path != []
    decreases path
  {
    if t.Leaf? then TypeError
    else if |path| == 1 then Ok(Node(t.kids[path[0] := Leaf(v)]))
    else
      var kid := if path[0] in t.kids then t.kids[path[0]] else Node(map[]);
      match Insert(kid, path[1..], v)
      case TypeError => TypeError
      case Ok(k) => Ok(Node(t.kids[path[0] := k]))
  }

  function Apply(t: Tree, param: Param): Result<Tree> {
    if IsFilterKey(param.0) then Insert(t, Parts(param.0), param.1) else Ok(t)
  }

  /** The dictionary after all parameters, taken from left to right. */
  function Parse(params: seq<Param>): Result<Tree> {
    if params == [] then Ok(Node(map[]))
    else
      match Parse(params[..|params| - 1])
      case TypeError => TypeError
      case Ok(t) => Apply(t, params[|params| - 1])
  }

  /** A parameter is refused exactly when a string already sits strictly above its path. */
  lemma {:induction false} InsertFails(t: Tree, path: Path, v: string)
    requires path != []
    ensures Insert(t, path, v).TypeError? <==>
            exists n | 0 <= n < |path| :: Get(t, path[..n]).Some?
    decreases path
  {
    assert path[..0] == [];
    if t.Leaf? {
      assert Get(t, path[..0]).Some?;
    } else if |path| == 1 {
    } else {
      var kid := if path[0] in t.kids then t.kids[path[0]] else Node(map[]);
      InsertFails(kid, path[1..], v);
      forall n | 0 < n < |path|
        ensures Get(t, path[..n]) == Get(kid, path[1..][..n - 1])
      {
        assert path[..n][1..] == path[1..][..n - 1];
      }
      if n :| 0 <= n < |path[1..]| && Get(kid, path[1..][..n]).Some? {
        assert Get(t, path[..n + 1]).Some?;
      }
    }
  }

  /** An accepted parameter sets its own path, drops what lay below that path and changes
      nothing else. */
  lemma {:induction false} InsertGet(t: Tree, path: Path, v: string, q: Path)
    requires path != [] && Insert(t, path, v).Ok?
    ensures Get(Insert(t, path, v).value, q) ==
            if q == path then Some(v) else if path < q then None else Get(t, q)
    decreases path
  {
    var kid := if path[0] in t.kids then t.kids[path[0]] else Node(map[]);
    if q != [] && q[0] == path[0] {
      assert path == [path[0]] + path[1..] && q == [q[0]] + q[1..];
      if |path| > 1 {
        InsertGet(kid, path[1..], v, q[1..]);
      }
    }
  }

  // What a query string denotes

  /** What the parameters leave at `path`, read off from the last parameter backwards: the last
      one naming `path` counts, unless a later one names a path strictly above it. */
  ghost function Denoted(params: seq<Param>, path: Path): Option<string> {
    if params == [] then None
    else
      var (key, value) := params[|params| - 1];
      if IsFilterKey(key) && Parts(key) == path then Some(value)
      else if IsFilterKey(key) && Parts(key) < path then None
      else Denoted(params[..|params| - 1], path)
  }

  /** A parameter names a path strictly above the path of a later one. */
  ghost predicate Conflict(params: seq<Param>, i: int, j: int) {
    && 0 <= i < j < |params|
    && IsFilterKey(params[i].0) && IsFilterKey(params[j].0)
    && Parts(params[i].0) < Parts(params[j].0)
  }

  lemma {:induction false} ParseGet(params: seq<Param>, path: Path)
    requires Parse(params).Ok?
    ensures Parse(params).value.Node?
    ensures Get(Parse(params).value, path) == Denoted(params, path)
  {
    if params != [] {
      var init := params[..|params| - 1];
      var (key, value) := params[|params| - 1];
      ParseGet(init, path);
      if IsFilterKey(key) {
        InsertGet(Parse(init).value, Parts(key), value, path);
      }
    }
  }

  /** Only a path some parameter names holds a string. */
  lemma {:induction false} DenotedSource(params: seq<Param>, path: Path)
    requires Denoted(params, path).Some?
    ensures exists i | 0 <= i < |params| ::
              IsFilterKey(params[i].0) && Parts(params[i].0) == path
  {
    var n := |params| - 1;
    if !(IsFilterKey(params[n].0) && Parts(params[n].0) == path) {
      DenotedSource(params[..n], path);
    }
  }

  /** A path named by some parameter, or a path strictly above it, holds a string. */
  lemma {:induction false} DenotedTarget(params: seq<Param>, i: nat, path: Path)
    requires i < |params| && IsFilterKey(params[i].0) && Parts(params[i].0) == path
    ensures exists n | 0 <= n <= |path| :: Denoted(params, path[..n]).Some?
  {
    var last := |params| - 1;
    var (key, value) := params[last];
    assert path[..|path|] == path;
    if IsFilterKey(key) && Parts(key) <= path {
      assert path[..|Parts(key)|] == Parts(key);
      assert Denoted(params, path[..|Parts(key)|]).Some?;
    } else {
      DenotedTarget(params[..last], i, path);
      var n :| 0 <= n <= |path| && Denoted(params[..last], path[..n]).Some?;
      assert Denoted(params, path[..n]).Some?;
    }
  }

  /** Reading fails exactly when a parameter names a path strictly above the path of a later
      parameter. */
  lemma {:induction false} ParseFails(params: seq<Param>)
    ensures Parse(params).TypeError? <==> exists i, j :: Conflict(params, i, j)
  {
    if params != [] {
      var last := |params| - 1;
      var init := params[..last];
      var (key, value) := params[last];
      ParseFails(init);
      forall i, j | 0 <= i < j < last
        ensures Conflict(params, i, j) == Conflict(init, i, j)
      {
      }
      if Parse(init).TypeError? {
        var i, j :| Conflict(init, i, j);
        assert Conflict(params, i, j);
      } else if IsFilterKey(key) {
        if Parse(params).TypeError? {
          var i := RefusalHasConflict(params);
        }
        if i, j :| Conflict(params, i, j) {
          assert j != last ==> Conflict(init, i, j);
          ConflictIsRefused(params, i);
        }
      }
    }
  }

  /** The step of `ParseFails` for the last parameter: a refusal comes from a conflict. */
  lemma RefusalHasConflict(params: seq<Param>) returns (i: nat)
    requires params != [] && IsFilterKey(params[|params| - 1].0)
    requires Parse(params[..|params| - 1]).Ok? && Parse(params).TypeError?
    ensures Conflict(params, i, |params| - 1)
  {
    var last := |params| - 1;
    var init, path := params[..last], Parts(params[last].0);
    InsertFails(Parse(init).value, path, params[last].1);
    var n :| 0 <= n < |path| && Get(Parse(init).value, path[..n]).Some?;
    ParseGet(init, path[..n]);
    DenotedSource(init, path[..n]);
    i :| 0 <= i < |init| && IsFilterKey(init[i].0) && Parts(init[i].0) == path[..n];
  }

  /** The step of `ParseFails` for the last parameter: a conflict causes a refusal. */
  lemma ConflictIsRefused(params: seq<Param>, i: nat)
    requires params != [] && Parse(params[..|params| - 1]).Ok?
    requires Conflict(params, i, |params| - 1)
    ensures Parse(params).TypeError?
  {
    hide Parts, IsFilterKey, Get, Insert, Denoted;
    var last := |params| - 1;
    var init, path := params[..last], Parts(params[last].0);
    var above := Parts(params[i].0);
    assert init[i] == params[i];
    DenotedTarget(init, i, above);
    var n :| 0 <= n <= |above| && Denoted(init, above[..n]).Some?;
    assert above[..n] == path[..n];
    ParseGet(init, path[..n]);
    InsertFails(Parse(init).value, path, params[last].1);
  }

  // Which parameters are read

  ghost predicate Bracketed(key: string) {
    exists body: string :: key == "filters[" + body + "]"
  }

  /** The key of a filter: the prefix, something, and the closing bracket; what stands between is split
      into parts that join to it. */
  lemma FilterKeyExactly(key: string)
    ensures IsFilterKey(key) <==> Bracketed(key)
    ensures IsFilterKey(key) ==> key == "filters[" + Join(Parts(key), "][") + "]"
  {
    if IsFilterKey(key) {
      var body := key[|PREFIX|..|key| - 1];
      assert key == "filters[" + body + "]";
      JoinSplit(body, "][");
    }
    if body: string :| key == "filters[" + body + "]" {
      assert key[..|PREFIX|] == "filters[";
    }
  }

  /** Any other parameter neither changes the dictionary nor raises. */
  lemma OthersAreIgnored(t: Tree, param: Param)
    requires !Bracketed(param.0)
    ensures Apply(t, param) == Ok(t)
  {
    FilterKeyExactly(param.0);
  }

  /** The parameters of a query string that are filters, in their order. */
  ghost function FiltersOnly(params: seq<Param>): seq<Param> {
    if params == [] then []
    else
      var last := params[|params| - 1];
      FiltersOnly(params[..|params| - 1]) + if Bracketed(last.0) then [last] else []
  }

  /** Parameters that are no filters, wherever they stand, leave the result as it was: what is read
      depends on the filters and their order alone. */
  lemma {:induction false} ParseReadsFilters(params: seq<Param>)
    ensures Parse(params) == Parse(FiltersOnly(params))
  {
    if params != [] {
      var init, last := params[..|params| - 1], params[|params| - 1];
      ParseReadsFilters(init);
      if Bracketed(last.0) {
        assert FiltersOnly(params)[..|FiltersOnly(params)| - 1] == FiltersOnly(init);
      } else {
        assert FiltersOnly(params) == FiltersOnly(init) + [] == FiltersOnly(init);
        if Parse(init).Ok? {
          OthersAreIgnored(Parse(init).value, last);
        }
      }
    }
  }

  /** `sorting[name]=x` is no filter. */
  lemma SortingIsIgnored()
    ensures Parse([("sorting[name]", "x")]) == Ok(Node(map[]))
  {
    var params := [("sorting[name]", "x")];
    assert !Bracketed("sorting[name]") by {
      if body: string :| "sorting[name]" == "filters[" + body + "]" {
        assert "sorting[name]"[0] == 's' && ("filters[" + body + "]")[0] == 'f';
      }
    }
    ParseReadsFilters(params);
    assert params[..0] == [];
    assert FiltersOnly(params) == [];
  }

  // Printing and reading back

  /** Bracket-free keys and no empty dictionary below the root. */
  ghost predicate Printable(t: Tree) {
    t.Node? ==>
      forall k | k in t.kids ::
        BracketFree(k) && t.kids[k] != Node(map[]) && Printable(t.kids[k])
  }

  ghost function LeafPaths(t: Tree): set<Path> {
    match t
    case Leaf(_) => {[]}
    case Node(kids) => set k, p | k in kids && p in LeafPaths(kids[k]) :: [k] + p
  }

  /** The parameters that print `t`: one per leaf. */
  ghost function Print(t: Tree): set<Param> {
    set p | p in LeafPaths(t) :: (Key(p), match Get(t, p) case Some(v) => v case None => "")
  }

  lemma {:induction false} LeafPathsAreLeaves(t: Tree, path: Path)
    ensures path in LeafPaths(t) <==> Get(t, path).Some?
    decreases path
  {
    if t.Node? && path != [] {
      assert path == [path[0]] + path[1..];
      if path[0] in t.kids {
        LeafPathsAreLeaves(t.kids[path[0]], path[1..]);
        if path in LeafPaths(t) {
          var k, p :| k in t.kids && p in LeafPaths(t.kids[k]) && path == [k] + p;
          assert k == path[0] && p == path[1..];
        }
      }
    }
  }

  lemma {:induction false} PrintableKeys(t: Tree, path: Path)
    requires Printable(t) && Get(t, path).Some?
    ensures forall part | part in path :: BracketFree(part)
    decreases path
  {
    if path != [] {
      PrintableKeys(t.kids[path[0]], path[1..]);
      assert path == [path[0]] + path[1..];
    }
  }

  /** No leaf lies strictly below another. */
  lemma {:induction false} LeavesArePrefixFree(t: Tree, p: Path, q: Path)
    requires Get(t, p).Some? && Get(t, q).Some?
    ensures !(p < q)
    decreases p
  {
    if p < q && p != [] {
      assert p[0] == q[0];
      assert p[1..] < q[1..];
      LeavesArePrefixFree(t.kids[p[0]], p[1..], q[1..]);
    }
  }

  /** Trees without empty sub-dictionaries are determined by their strings. */
  lemma {:induction false} SameLeavesSameTree(t: Tree, u: Tree)
    requires NoEmptySub(t) && NoEmptySub(u)
    requires t.Node? && u.Node?
    requires forall p :: Get(t, p) == Get(u, p)
    ensures t == u
    decreases t
  {
    SameKeys(t, u);
    SameKeys(u, t);
    forall k | k in t.kids
      ensures t.kids[k] == u.kids[k]
    {
      var a, b := t.kids[k], u.kids[k];
      forall p
        ensures Get(a, p) == Get(b, p)
      {
        GetBelow(t, k, p);
        GetBelow(u, k, p);
      }
      if a.Leaf? || b.Leaf? {
        assert Get(a, []) == Get(b, []);
      } else {
        SameLeavesSameTree(a, b);
      }
    }
    assert t.kids == u.kids;
  }

  ghost predicate NoEmptySub(t: Tree) {
    t.Node? ==> forall k | k in t.kids :: t.kids[k] != Node(map[]) && NoEmptySub(t.kids[k])
  }

  lemma {:induction false} LeafBelow(t: Tree) returns (path: Path)
    requires NoEmptySub(t) && t != Node(map[])
    ensures Get(t, path).Some?
    decreases t
  {
    match t
    case Leaf(_) => path := [];
    case Node(kids) =>
      assert kids.Keys != {};
      var k :| k in kids;
      var rest := LeafBelow(kids[k]);
      path := [k] + rest;
  }

  lemma SameKeys(t: Tree, u: Tree)
    requires NoEmptySub(t) && t.Node? && u.Node?
    requires forall p :: Get(t, p) == Get(u, p)
    ensures t.kids.Keys <= u.kids.Keys
  {
    hide Get, NoEmptySub;
    forall k | k in t.kids
      ensures k in u.kids
    {
      var path := LeafThrough(t, k);
      GetBelow(u, k, path);
    }
  }

  lemma LeafThrough(t: Tree, k: string) returns (path: Path)
    requires NoEmptySub(t) && t.Node? && k in t.kids
    ensures Get(t, [k] + path).Some?
  {
    hide Get, NoEmptySub;
    KidNotEmpty(t, k);
    path := LeafBelow(t.kids[k]);
    GetBelow(t, k, path);
  }

  lemma KidNotEmpty(t: Tree, k: string)
    requires NoEmptySub(t) && t.Node? && k in t.kids
    ensures t.kids[k] != Node(map[]) && NoEmptySub(t.kids[k])
  {
  }

  lemma GetBelow(t: Tree, k: string, path: Path)
    requires t.Node?
    ensures Get(t, [k] + path) == if k in t.kids then Get(t.kids[k], path) else None
  {
    assert ([k] + path)[1..] == path;
  }

  /** Reading never leaves an empty dictionary below the root. */
  lemma {:induction false} InsertNoEmpty(t: Tree, path: Path, v: string)
    requires path != [] && NoEmptySub(t) && Insert(t, path, v).Ok?
    ensures NoEmptySub(Insert(t, path, v).value) && Insert(t, path, v).value != Node(map[])
    decreases path
  {
    var kid := if path[0] in t.kids then t.kids[path[0]] else Node(map[]);
    if |path| > 1 {
      InsertNoEmpty(kid, path[1..], v);
    }
    assert path[0] in Insert(t, path, v).value.kids;
  }

  lemma {:induction false} ParseNoEmpty(params: seq<Param>)
    requires Parse(params).Ok?
    ensures NoEmptySub(Parse(params).value)
  {
    if params != [] {
      var init := params[..|params| - 1];
      var (key, value) := params[|params| - 1];
      ParseNoEmpty(init);
      if IsFilterKey(key) {
        InsertNoEmpty(Parse(init).value, Parts(key), value);
      }
    }
  }

  lemma {:induction false} PrintableHasNoEmptySub(t: Tree)
    requires Printable(t)
    ensures NoEmptySub(t)
    decreases t
  {
    if t.Node? {
      forall k | k in t.kids {
        PrintableHasNoEmptySub(t.kids[k]);
      }
    }
  }

  lemma PrintedParam(t: Tree, params: seq<Param>, i: nat)
    requires t.Node? && Printable(t) && i < |params|
    requires (set param | param in params) == Print(t)
    ensures IsFilterKey(params[i].0)
    ensures Get(t, Parts(params[i].0)) == Some(params[i].1)
  {
    assert params[i] in Print(t);
    var p :| p in LeafPaths(t)
          && params[i] == (Key(p), match Get(t, p) case Some(v) => v case None => "");
    LeafPathsAreLeaves(t, p);
    PrintableKeys(t, p);
    KeyParts(p);
  }

  /** With one parameter per leaf, in any order, each leaf is denoted by its own parameter. */
  lemma {:induction false} DenotedPrint(t: Tree, params: seq<Param>, n: nat, path: Path)
    requires n <= |params|
    requires forall i | 0 <= i < |params| ::
               IsFilterKey(params[i].0) && Get(t, Parts(params[i].0)) == Some(params[i].1)
    ensures Get(t, path).None? ==> Denoted(params[..n], path).None?
    ensures Get(t, path).Some? && (exists i | 0 <= i < n :: Parts(params[i].0) == path)
            ==> Denoted(params[..n], path) == Get(t, path)
  {
    if n > 0 {
      assert params[..n][..n - 1] == params[..n - 1];
      var above := Parts(params[n - 1].0);
      if Get(t, path).Some? {
        LeavesArePrefixFree(t, above, path);
      }
      DenotedPrint(t, params, n - 1, path);
    }
  }

  /** Printing a nested dictionary as query parameters and reading them back, in whatever order
      they arrive, rebuilds the dictionary. */
  lemma PrintThenParse(t: Tree, params: seq<Param>)
    requires t.Node? && Printable(t)
    requires (set param | param in params) == Print(t)
    ensures Parse(params) == Ok(t)
  {
    forall i | 0 <= i < |params|
      ensures IsFilterKey(params[i].0) && Get(t, Parts(params[i].0)) == Some(params[i].1)
    {
      PrintedParam(t, params, i);
    }
    ParseFails(params);
    if i, j :| Conflict(params, i, j) {
      LeavesArePrefixFree(t, Parts(params[i].0), Parts(params[j].0));
    }
    var u := Parse(params).value;
    assert params[..|params|] == params;
    forall path
      ensures Get(u, path) == Get(t, path)
    {
      ParseGet(params, path);
      if Get(t, path).Some? {
        LeafPathsAreLeaves(t, path);
        PrintableKeys(t, path);
        KeyParts(path);
        assert (Key(path), Get(t, path).value) in Print(t);
        assert (Key(path), Get(t, path).value) in params;
        assert exists i | 0 <= i < |params| :: Parts(params[i].0) == path;
      }
      DenotedPrint(t, params, |params|, path);
    }
    ParseGet(params, []);
    ParseNoEmpty(params);
    PrintableHasNoEmptySub(t);
    SameLeavesSameTree(u, t);
  }
}
