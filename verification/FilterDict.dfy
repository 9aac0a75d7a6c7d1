/** `parse_filters` as written: nested dictionary objects, changed in place through a cursor
    that walks down one path at a time. */
module FilterDict {
  import opened Options
  import opened FilterTree

  /** A dictionary object: its entries are strings or other dictionary objects. */
  datatype Value = Str(text: string) | Ref(dict: Dict)

  class Dict {
    var entries: map<string, Value>

    constructor ()
      ensures entries == map[]
    {
      entries := map[];
    }
  }

  // Objects and trees

  /** The contents of a set of dictionary objects. */
  type Heap = map<Dict, map<string, Value>>

  ghost predicate Current(h: Heap)
    reads h.Keys
  {
    forall d | d in h :: d.entries == h[d]
  }

  /** `m` gives each object the tree it stands for. */
  ghost predicate Models(h: Heap, m: map<Dict, Tree>) {
    m.Keys == h.Keys && forall d | d in h :: NodeModels(h, m, d)
  }

  ghost predicate NodeModels(h: Heap, m: map<Dict, Tree>, d: Dict)
    requires m.Keys == h.Keys && d in h
  {
    && m[d].Node?
    && m[d].kids.Keys == h[d].Keys
    && forall k | k in h[d] ::
         match h[d][k]
         case Str(s) => m[d].kids[k] == Leaf(s)
         case Ref(c) => c in h && m[d].kids[k] == m[c]
  }

  /** Where each object is stored: under which key of which other object. */
  type Owners = map<Dict, (Dict, string)>

  /** No object is stored twice, and the root is stored nowhere: no aliasing. */
  ghost predicate TreeShaped(root: Dict, h: Heap, owner: Owners) {
    && root in h && root !in owner
    && forall d, k | d in h && k in h[d] && h[d][k].Ref? ::
         h[d][k].dict in owner && owner[h[d][k].dict] == (d, k)
  }

  ghost predicate Valid(root: Dict, h: Heap, owner: Owners, m: map<Dict, Tree>) {
    TreeShaped(root, h, owner) && Models(h, m)
  }

  /** The objects met on the way from the root along `keys`. */
  ghost predicate Trail(root: Dict, h: Heap, keys: Path, trail: seq<Dict>) {
    && |trail| == |keys| + 1
    && trail[0] == root
    && (forall i | 0 <= i < |trail| :: trail[i] in h)
    && (forall i | 0 <= i < |keys| ::
          keys[i] in h[trail[i]] && h[trail[i]][keys[i]] == Ref(trail[i + 1]))
  }

  lemma {:induction false} TrailDistinct(root: Dict, h: Heap, owner: Owners, keys: Path, trail: seq<Dict>,
                                         i: nat, j: nat)
    requires TreeShaped(root, h, owner) && Trail(root, h, keys, trail)
    requires i < j < |trail|
    ensures trail[i] != trail[j]
  {
    assert h[trail[j - 1]][keys[j - 1]] == Ref(trail[j]);
    if i > 0 {
      assert h[trail[i - 1]][keys[i - 1]] == Ref(trail[i]);
      TrailDistinct(root, h, owner, keys, trail, i - 1, j - 1);
    }
  }

  // Assigning at a path

  /** The tree with the entry at the end of `path` replaced. */
  function PutAt(t: Tree, path: Path, new': Tree): Tree
    requires path != []
    decreases path
  {
    if t.Leaf? then t
    else if |path| == 1 then Node(t.kids[path[0] := new'])
    else if path[0] in t.kids then Node(t.kids[path[0] := PutAt(t.kids[path[0]], path[1..], new')])
    else t
  }

  ghost predicate LeadsToNode(t: Tree, keys: Path) {
    Sub(t, keys).Some? && Sub(t, keys).value.Node?
  }

  lemma Overwrite<A, B>(m: map<A, B>, k: A, first: B, second: B)
    ensures m[k := first][k := second] == m[k := second]
  {
  }

  /** Creating an empty dictionary on the way does not change what the parameter finally does. */
  lemma {:induction false} InsertAfterCreate(t: Tree, keys: Path, part: string, rest: Path, v: string)
    requires LeadsToNode(t, keys) && rest != []
    requires part !in Sub(t, keys).value.kids
    ensures Insert(PutAt(t, keys + [part], Node(map[])), keys + [part] + rest, v)
            == Insert(t, keys + [part] + rest, v)
    decreases keys
  {
    var path, empty := keys + [part] + rest, Node(map[]);
    var k := path[0];
    var kid := if keys == [] then empty else PutAt(t.kids[k], keys[1..] + [part], empty);
    if keys == [] {
      assert keys + [part] == [part];
    } else {
      assert path[1..] == keys[1..] + [part] + rest;
      assert (keys + [part])[1..] == keys[1..] + [part];
      InsertAfterCreate(t.kids[k], keys[1..], part, rest, v);
    }
    assert PutAt(t, keys + [part], empty) == Node(t.kids[k := kid]);
    var sub := Insert(kid, path[1..], v);
    if sub.Ok? {
      Overwrite(t.kids, k, kid, sub.value);
    }
  }

  /** The last assignment is the insertion. */
  lemma {:induction false} InsertAtCursor(t: Tree, keys: Path, part: string, v: string)
    requires LeadsToNode(t, keys)
    ensures Insert(t, keys + [part], v) == Ok(PutAt(t, keys + [part], Leaf(v)))
    decreases keys
  {
    if keys != [] {
      assert (keys + [part])[1..] == keys[1..] + [part];
      InsertAtCursor(t.kids[keys[0]], keys[1..], part, v);
    }
  }

  /** A cursor that has reached a string cannot go on. */
  lemma {:induction false} InsertBlocked(t: Tree, keys: Path, rest: Path, v: string)
    requires Sub(t, keys).Some? && Sub(t, keys).value.Leaf? && rest != []
    ensures Insert(t, keys + rest, v).TypeError?
    decreases keys
  {
    if keys == [] {
      assert keys + rest == rest;
    } else {
      assert (keys + rest)[1..] == keys[1..] + rest;
      InsertBlocked(t.kids[keys[0]], keys[1..], rest, v);
    }
  }

  lemma {:induction false} SubStep(t: Tree, keys: Path, part: string)
    requires LeadsToNode(t, keys) && part in Sub(t, keys).value.kids
    ensures Sub(t, keys + [part]) == Some(Sub(t, keys).value.kids[part])
    decreases keys
  {
    if keys != [] {
      assert (keys + [part])[1..] == keys[1..] + [part];
      SubStep(t.kids[keys[0]], keys[1..], part);
    }
  }

  /** The tree of the object at the end of a trail is the subtree its keys lead to. */
  lemma {:induction false} TrailModel(root: Dict, h: Heap, m: map<Dict, Tree>,
                                      keys: Path, trail: seq<Dict>)
    requires Models(h, m) && Trail(root, h, keys, trail)
    ensures Sub(m[root], keys) == Some(m[trail[|keys|]])
    decreases keys
  {
    assert NodeModels(h, m, root);
    if keys != [] {
      TrailModel(trail[1], h, m, keys[1..], trail[1..]);
    }
  }

  ghost function TreeOf(value: Value): Tree {
    match value
    case Str(s) => Leaf(s)
    case Ref(_) => Node(map[])
  }

  /** The objects after `current[part] = value`, where `value` is a string or a new dictionary. */
  ghost function Assigned(h: Heap, current: Dict, part: string, value: Value): Heap
    requires current in h
  {
    var h' := h[current := h[current][part := value]];
    if value.Ref? then h'[value.dict := map[]] else h'
  }

  ghost predicate OnTrail(trail: seq<Dict>, d: Dict, i: int) {
    0 <= i < |trail| && trail[i] == d
  }

  ghost function Position(trail: seq<Dict>, d: Dict): (i: int)
    ensures i != -1 ==> OnTrail(trail, d, i)
    ensures i == -1 ==> d !in trail
  {
    if trail == [] then -1
    else if trail[0] == d then 0
    else
      var i := Position(trail[1..], d);
      if i == -1 then -1 else i + 1
  }

  /** The trees after an assignment at the end of a trail: those on the trail change along the
      rest of the path, all others stay. */
  ghost function Remodel(m: map<Dict, Tree>, keys: Path, trail: seq<Dict>, part: string,
                         value: Value): map<Dict, Tree>
    requires |trail| == |keys| + 1
  {
    var m' := map d | d in m ::
      var i := Position(trail, d);
      if i == -1 then m[d] else PutAt(m[d], keys[i..] + [part], TreeOf(value));
    if value.Ref? then m'[value.dict := Node(map[])] else m'
  }

  ghost function AssignedOwners(owner: Owners, current: Dict, part: string, value: Value): Owners {
    if value.Ref? then owner[value.dict := (current, part)] else owner
  }

  lemma AssignShape(root: Dict, h: Heap, owner: Owners, current: Dict, part: string, value: Value)
    requires TreeShaped(root, h, owner) && current in h
    requires value.Ref? ==> value.dict !in h
    requires forall d, k | d in h && k in h[d] && h[d][k].Ref? :: h[d][k].dict in h
    ensures TreeShaped(root, Assigned(h, current, part, value),
                       AssignedOwners(owner, current, part, value))
  {
  }

  lemma ModelsRefs(h: Heap, m: map<Dict, Tree>, d: Dict, k: string)
    requires Models(h, m) && d in h && k in h[d] && h[d][k].Ref?
    ensures h[d][k].dict in h
  {
    assert NodeModels(h, m, d);
  }

  /** The tree of an object on the trail, after the assignment. */
  lemma RemodelOnTrail(root: Dict, h: Heap, owner: Owners, m: map<Dict, Tree>, keys: Path, trail: seq<Dict>,
                       part: string, value: Value, i: nat)
    requires Valid(root, h, owner, m) && Trail(root, h, keys, trail) && i < |trail|
    requires value.Ref? ==> value.dict !in h
    ensures Remodel(m, keys, trail, part, value)[trail[i]]
            == PutAt(m[trail[i]], keys[i..] + [part], TreeOf(value))
  {
    var j := Position(trail, trail[i]);
    if i < j {
      TrailDistinct(root, h, owner, keys, trail, i, j);
    } else if j < i {
      TrailDistinct(root, h, owner, keys, trail, j, i);
    }
  }

  /** A dictionary stored in `d` lies on the trail only as the trail's next object. */
  lemma OthersOffTrail(root: Dict, h: Heap, owner: Owners, keys: Path, trail: seq<Dict>, d: Dict, i: int)
    requires TreeShaped(root, h, owner) && Trail(root, h, keys, trail) && d in h
    requires i == -1 ==> d !in trail
    requires i != -1 ==> OnTrail(trail, d, i)
    ensures forall k, j | k in h[d] && h[d][k].Ref? && OnTrail(trail, h[d][k].dict, j) ::
              0 <= i < |keys| && j == i + 1 && k == keys[i]
  {
    forall k, j | k in h[d] && h[d][k].Ref? && OnTrail(trail, h[d][k].dict, j)
      ensures 0 <= i < |keys| && j == i + 1 && k == keys[i]
    {
      assert h[d][k] == Ref(trail[j]);
      assert j > 0;
      assert h[trail[j - 1]][keys[j - 1]] == Ref(trail[j]);
      assert d == trail[j - 1] && k == keys[j - 1];
      if i < j - 1 {
        TrailDistinct(root, h, owner, keys, trail, i, j - 1);
      } else if j - 1 < i {
        TrailDistinct(root, h, owner, keys, trail, j - 1, i);
      }
    }
  }

  lemma AssignedAt(h: Heap, current: Dict, part: string, value: Value, d: Dict)
    requires current in h && d in h && (value.Ref? ==> value.dict !in h)
    ensures d in Assigned(h, current, part, value)
    ensures Assigned(h, current, part, value)[d] == if d == current then h[d][part := value] else h[d]
  {
  }

  lemma SameObjects(h: Heap, m: map<Dict, Tree>, keys: Path, trail: seq<Dict>, part: string, value: Value)
    requires m.Keys == h.Keys && |trail| == |keys| + 1 && trail[|keys|] in h
    ensures var h', m' := Assigned(h, trail[|keys|], part, value), Remodel(m, keys, trail, part, value);
            m'.Keys == h'.Keys && h.Keys <= h'.Keys
    ensures value.Ref? ==>
              var m' := Remodel(m, keys, trail, part, value);
              value.dict in m' && m'[value.dict] == Node(map[])
  {
  }

  /** An object off the trail keeps its tree. */
  lemma OffTrailModels(root: Dict, h: Heap, owner: Owners, m: map<Dict, Tree>, keys: Path, trail: seq<Dict>,
                       part: string, value: Value, d: Dict)
    requires Valid(root, h, owner, m) && Trail(root, h, keys, trail)
    requires value.Ref? ==> value.dict !in h
    requires d in h && d !in trail
    ensures NodeModels(Assigned(h, trail[|keys|], part, value), Remodel(m, keys, trail, part, value), d)
  {
    hide PutAt, TreeShaped;
    var h', m' := Assigned(h, trail[|keys|], part, value), Remodel(m, keys, trail, part, value);
    assert NodeModels(h, m, d);
    OthersOffTrail(root, h, owner, keys, trail, d, -1);
    assert m'[d] == m[d] && h'[d] == h[d];
    forall k | k in h[d] && h[d][k].Ref?
      ensures m'[h[d][k].dict] == m[h[d][k].dict]
    {
      assert !OnTrail(trail, h[d][k].dict, Position(trail, h[d][k].dict));
    }
  }

  /** Objects stored next to the trail keep their trees. */
  lemma BesideTrail(root: Dict, h: Heap, owner: Owners, m: map<Dict, Tree>, keys: Path, trail: seq<Dict>,
                    part: string, value: Value, i: nat, k: string)
    requires Valid(root, h, owner, m) && Trail(root, h, keys, trail) && i < |trail|
    requires value.Ref? ==> value.dict !in h
    requires k in h[trail[i]] && h[trail[i]][k].Ref? && !(i < |keys| && k == keys[i])
    ensures h[trail[i]][k].dict in h
    ensures Remodel(m, keys, trail, part, value)[h[trail[i]][k].dict] == m[h[trail[i]][k].dict]
  {
    assert NodeModels(h, m, trail[i]);
    OthersOffTrail(root, h, owner, keys, trail, trail[i], i);
    var c := h[trail[i]][k].dict;
    assert !OnTrail(trail, c, Position(trail, c));
  }

  lemma RestOfPath(keys: Path, part: string, i: nat)
    requires i < |keys|
    ensures keys[i..] + [part] == [keys[i]] + (keys[i + 1..] + [part])
  {
  }

  lemma PutAtNests(t: Tree, key: string, rest: Path, new': Tree)
    requires t.Node? && key in t.kids && rest != []
    ensures PutAt(t, [key] + rest, new') == Node(t.kids[key := PutAt(t.kids[key], rest, new')])
  {
    assert ([key] + rest)[1..] == rest;
  }

  lemma PutAtLast(t: Tree, key: string, new': Tree)
    requires t.Node?
    ensures PutAt(t, [key], new') == Node(t.kids[key := new'])
  {
  }

  /** Along the trail the changed trees nest as the objects do. */
  lemma TrailNests(root: Dict, h: Heap, owner: Owners, m: map<Dict, Tree>, keys: Path,
                   trail: seq<Dict>, part: string, value: Value, i: nat)
    requires Valid(root, h, owner, m) && Trail(root, h, keys, trail) && i < |keys|
    requires value.Ref? ==> value.dict !in h
    ensures var m' := Remodel(m, keys, trail, part, value);
            m'[trail[i]] == Node(m[trail[i]].kids[keys[i] := m'[trail[i + 1]]])
  {
    assert NodeModels(h, m, trail[i]);
    RemodelOnTrail(root, h, owner, m, keys, trail, part, value, i);
    RemodelOnTrail(root, h, owner, m, keys, trail, part, value, i + 1);
    RestOfPath(keys, part, i);
    PutAtNests(m[trail[i]], keys[i], keys[i + 1..] + [part], TreeOf(value));
  }

  /** An object on the trail above the cursor has its tree changed along the rest of the path. */
  lemma OnTrailModels(root: Dict, h: Heap, owner: Owners, m: map<Dict, Tree>, keys: Path, trail: seq<Dict>,
                      part: string, value: Value, i: nat)
    requires Valid(root, h, owner, m) && Trail(root, h, keys, trail) && i < |keys|
    requires value.Ref? ==> value.dict !in h
    ensures NodeModels(Assigned(h, trail[|keys|], part, value), Remodel(m, keys, trail, part, value), trail[i])
  {
    hide PutAt, Position, TreeShaped, Remodel, Assigned;
    var h', m' := Assigned(h, trail[|keys|], part, value), Remodel(m, keys, trail, part, value);
    var d := trail[i];
    SameObjects(h, m, keys, trail, part, value);
    AssignedAt(h, trail[|keys|], part, value, d);
    assert NodeModels(h, m, d);
    TrailDistinct(root, h, owner, keys, trail, i, |keys|);
    assert h'[d] == h[d] && h[d][keys[i]] == Ref(trail[i + 1]);
    TrailNests(root, h, owner, m, keys, trail, part, value, i);
    forall k | k in h[d]
      ensures match h[d][k]
              case Str(s) => m'[d].kids[k] == Leaf(s)
              case Ref(c) => c in h' && m'[d].kids[k] == m'[c]
    {
      if h[d][k].Ref? && k != keys[i] {
        BesideTrail(root, h, owner, m, keys, trail, part, value, i, k);
      }
    }
  }

  /** The cursor's own object gets the new entry. */
  lemma CursorModels(root: Dict, h: Heap, owner: Owners, m: map<Dict, Tree>, keys: Path, trail: seq<Dict>,
                     part: string, value: Value)
    requires Valid(root, h, owner, m) && Trail(root, h, keys, trail)
    requires value.Ref? ==> value.dict !in h
    ensures NodeModels(Assigned(h, trail[|keys|], part, value), Remodel(m, keys, trail, part, value), trail[|keys|])
  {
    hide PutAt, Position, TreeShaped, Remodel, Assigned;
    var h', m' := Assigned(h, trail[|keys|], part, value), Remodel(m, keys, trail, part, value);
    var n := |keys|;
    var d := trail[n];
    SameObjects(h, m, keys, trail, part, value);
    AssignedAt(h, trail[|keys|], part, value, d);
    assert NodeModels(h, m, d);
    RemodelOnTrail(root, h, owner, m, keys, trail, part, value, n);
    assert keys[n..] + [part] == [part];
    PutAtLast(m[d], part, TreeOf(value));
    forall k | k in h[d] && k != part
      ensures match h[d][k]
              case Str(s) => m'[d].kids[k] == Leaf(s)
              case Ref(c) => c in h' && m'[d].kids[k] == m'[c]
    {
      if h[d][k].Ref? {
        BesideTrail(root, h, owner, m, keys, trail, part, value, n, k);
      }
    }
  }

  lemma AssignModels(root: Dict, h: Heap, owner: Owners, m: map<Dict, Tree>, keys: Path, trail: seq<Dict>,
                     part: string, value: Value, d: Dict)
    requires Valid(root, h, owner, m) && Trail(root, h, keys, trail)
    requires value.Ref? ==> value.dict !in h
    requires d in Assigned(h, trail[|keys|], part, value)
    ensures NodeModels(Assigned(h, trail[|keys|], part, value), Remodel(m, keys, trail, part, value), d)
  {
    hide PutAt, TreeShaped, Remodel;
    SameObjects(h, m, keys, trail, part, value);
    if d == trail[|keys|] {
      CursorModels(root, h, owner, m, keys, trail, part, value);
    } else if d in trail {
      OnTrailModels(root, h, owner, m, keys, trail, part, value, Position(trail, d));
    } else if d in h {
      OffTrailModels(root, h, owner, m, keys, trail, part, value, d);
    }
  }

  /** An assignment at the end of a trail keeps the objects a tree, changed at that path. */
  lemma AssignValid(root: Dict, h: Heap, owner: Owners, m: map<Dict, Tree>, keys: Path, trail: seq<Dict>,
                    part: string, value: Value)
    requires Valid(root, h, owner, m) && Trail(root, h, keys, trail)
    requires value.Ref? ==> value.dict !in h
    ensures var h', m' := Assigned(h, trail[|keys|], part, value), Remodel(m, keys, trail, part, value);
            && Valid(root, h', AssignedOwners(owner, trail[|keys|], part, value), m')
            && m'[root] == PutAt(m[root], keys + [part], TreeOf(value))
  {
    hide PutAt, TreeShaped, NodeModels, Remodel, Assigned;
    var h', m' := Assigned(h, trail[|keys|], part, value), Remodel(m, keys, trail, part, value);
    SameObjects(h, m, keys, trail, part, value);
    forall d, k | d in h && k in h[d] && h[d][k].Ref?
      ensures h[d][k].dict in h
    {
      ModelsRefs(h, m, d, k);
    }
    AssignShape(root, h, owner, trail[|keys|], part, value);
    forall d | d in h'
      ensures NodeModels(h', m', d)
    {
      AssignModels(root, h, owner, m, keys, trail, part, value, d);
    }
    RemodelOnTrail(root, h, owner, m, keys, trail, part, value, 0);
    assert keys[0..] == keys;
  }

  // The loops

  /** `d[part] = value` on the cursor's object. */
  method Assign(root: Dict, current: Dict, part: string, value: Value,
                ghost h: Heap, ghost owner: Owners, ghost m: map<Dict, Tree>,
                ghost keys: Path, ghost trail: seq<Dict>)
    returns (ghost h': Heap, ghost owner': Owners, ghost m': map<Dict, Tree>)
    requires Current(h) && Valid(root, h, owner, m)
    requires Trail(root, h, keys, trail) && trail[|keys|] == current
    requires value.Ref? ==> value.dict !in h && value.dict.entries == map[]
    modifies current
    ensures h' == Assigned(h, current, part, value)
    ensures Current(h') && Valid(root, h', owner', m')
    ensures m'[root] == PutAt(m[root], keys + [part], TreeOf(value))
  {
    hide PutAt, TreeShaped, Models, Position;
    current.entries := current.entries[part := value];
    AssignValid(root, h, owner, m, keys, trail, part, value);
    h' := Assigned(h, current, part, value);
    owner' := AssignedOwners(owner, current, part, value);
    m' := Remodel(m, keys, trail, part, value);
  }

  /** What the cursor finds under the next part, before the last one. */
  lemma CursorStep(root: Dict, h: Heap, owner: Owners, m: map<Dict, Tree>, parts: Path, i: nat,
                   trail: seq<Dict>, value: string)
    requires Valid(root, h, owner, m) && i < |parts| - 1 && Trail(root, h, parts[..i], trail)
    ensures parts[i] !in h[trail[i]] ==>
              Insert(PutAt(m[root], parts[..i] + [parts[i]], Node(map[])), parts, value)
              == Insert(m[root], parts, value)
    ensures parts[i] in h[trail[i]] && h[trail[i]][parts[i]].Str? ==>
              Insert(m[root], parts, value).TypeError?
    ensures parts[i] in h[trail[i]] && h[trail[i]][parts[i]].Ref? ==>
              h[trail[i]][parts[i]].dict in h
  {
    var keys, part, rest := parts[..i], parts[i], parts[i + 1..];
    assert NodeModels(h, m, trail[i]);
    TrailModel(root, h, m, keys, trail);
    assert parts == keys + [part] + rest;
    if part !in h[trail[i]] {
      InsertAfterCreate(m[root], keys, part, rest, value);
    } else if h[trail[i]][part].Str? {
      SubStep(m[root], keys, part);
      InsertBlocked(m[root], keys + [part], rest, value);
    }
  }

  /** The last assignment completes the insertion. */
  lemma CursorLast(root: Dict, h: Heap, owner: Owners, m: map<Dict, Tree>, parts: Path,
                   trail: seq<Dict>, value: string)
    requires Valid(root, h, owner, m) && parts != []
    requires Trail(root, h, parts[..|parts| - 1], trail)
    ensures Insert(m[root], parts, value)
         == Ok(PutAt(m[root], parts[..|parts| - 1] + [parts[|parts| - 1]], Leaf(value)))
  {
    var i := |parts| - 1;
    assert NodeModels(h, m, trail[i]);
    TrailModel(root, h, m, parts[..i], trail);
    assert parts == parts[..i] + [parts[i]];
    InsertAtCursor(m[root], parts[..i], parts[i], value);
  }

  lemma TrailExtends(root: Dict, h: Heap, parts: Path, i: nat, trail: seq<Dict>, c: Dict)
    requires i < |parts| && Trail(root, h, parts[..i], trail) && c in h
    requires parts[i] in h[trail[i]] && h[trail[i]][parts[i]] == Ref(c)
    ensures Trail(root, h, parts[..i + 1], trail + [c])
  {
  }

  lemma TrailAfterCreate(root: Dict, h: Heap, owner: Owners, keys: Path, trail: seq<Dict>,
                         part: string, d: Dict)
    requires TreeShaped(root, h, owner) && Trail(root, h, keys, trail) && d !in h
    requires part !in h[trail[|keys|]]
    ensures Trail(root, Assigned(h, trail[|keys|], part, Ref(d)), keys, trail)
  {
  }

  /** One turn of the inner loop: make sure there is a dictionary under the next part and move
      the cursor to it; `None` stands for the `TypeError` on a string. */
  method Descend(root: Dict, current: Dict, parts: Path, i: nat, ghost value: string,
                 ghost h0: Heap, ghost owner0: Owners, ghost m0: map<Dict, Tree>, ghost trail0: seq<Dict>)
    returns (next: Option<Dict>, ghost h: Heap, ghost owner: Owners, ghost m: map<Dict, Tree>,
             ghost trail: seq<Dict>)
    requires Current(h0) && Valid(root, h0, owner0, m0)
    requires i < |parts| - 1 && Trail(root, h0, parts[..i], trail0) && trail0[i] == current
    modifies current
    ensures Current(h) && Valid(root, h, owner, m)
    ensures forall d | d in h :: d in h0 || fresh(d)
    ensures Insert(m[root], parts, value) == Insert(m0[root], parts, value)
    ensures next.Some? ==> Trail(root, h, parts[..i + 1], trail) && trail[i + 1] == next.value
    ensures next.None? ==> Insert(m0[root], parts, value).TypeError?
  {
    hide PutAt, TreeShaped, Insert, Models;
    h, owner, m, trail := h0, owner0, m0, trail0;
    CursorStep(root, h, owner, m, parts, i, trail, value);
    var part := parts[i];
    if part !in current.entries {
      var d := new Dict();
      TrailAfterCreate(root, h, owner, parts[..i], trail, part, d);
      h, owner, m := Assign(root, current, part, Ref(d), h, owner, m, parts[..i], trail);
    } else if current.entries[part].Str? {
      return None, h, owner, m, trail;
    }
    next := Some(current.entries[part].dict);
    TrailExtends(root, h, parts, i, trail, next.value);
    trail := trail + [next.value];
  }

  /** The inner loop: walk down the path of one parameter, creating dictionaries on the way, and
      store the value under its last part. */
  method Store(root: Dict, parts: Path, value: string,
               ghost h0: Heap, ghost owner0: Owners, ghost m0: map<Dict, Tree>)
    returns (ok: bool, ghost h: Heap, ghost owner: Owners, ghost m: map<Dict, Tree>)
    requires parts != [] && Current(h0) && Valid(root, h0, owner0, m0)
    modifies h0.Keys
    ensures Current(h) && Valid(root, h, owner, m)
    ensures forall d | d in h :: d in h0 || fresh(d)
    ensures ok == Insert(m0[root], parts, value).Ok?
    ensures ok ==> m[root] == Insert(m0[root], parts, value).value
  {
    h, owner, m := h0, owner0, m0;
    var current := root;
    ghost var trail := [root];
    var i := 0;
    while i < |parts| - 1
      invariant 0 <= i < |parts|
      invariant Current(h) && Valid(root, h, owner, m)
      invariant forall d | d in h :: d in h0 || fresh(d)
      invariant Trail(root, h, parts[..i], trail) && trail[i] == current
      invariant Insert(m[root], parts, value) == Insert(m0[root], parts, value)
    {
      var next;
      next, h, owner, m, trail := Descend(root, current, parts, i, value, h, owner, m, trail);
      if next == None {
        return false, h, owner, m;
      }
      current, i := next.value, i + 1;
    }
    CursorLast(root, h, owner, m, parts, trail, value);
    h, owner, m := Assign(root, current, parts[i], Str(value), h, owner, m, parts[..i], trail);
    ok := true;
  }

  /** Reads the bracketed query parameters into nested dictionary objects; the result is the
      dictionary the parameters denote, or the `TypeError` Python raises. */
  method ParseFilters(params: seq<Param>)
    returns (filters: Option<Dict>, ghost h: Heap, ghost owner: Owners, ghost m: map<Dict, Tree>)
    ensures filters.None? <==> Parse(params).TypeError?
    ensures filters.Some? ==>
              && Current(h) && Valid(filters.value, h, owner, m)
              && Parse(params) == Ok(m[filters.value])
  {
    var root := new Dict();
    h, owner, m := map[root := map[]], map[], map[root := Node(map[])];
    assert NodeModels(h, m, root);
    for n := 0 to |params|
      invariant Current(h) && Valid(root, h, owner, m)
      invariant forall d | d in h :: fresh(d)
      invariant Parse(params[..n]) == Ok(m[root])
    {
      var (key, value) := params[n];
      assert params[..n + 1][..n] == params[..n];
      if IsFilterKey(key) {
        var ok;
        ok, h, owner, m := Store(root, Parts(key), value, h, owner, m);
        if !ok {
          FailureStays(params, n + 1);
          return None, h, owner, m;
        }
      }
    }
    assert params[..|params|] == params;
    filters := Some(root);
  }

  lemma {:induction false} FailureStays(params: seq<Param>, n: nat)
    requires n <= |params| && Parse(params[..n]).TypeError?
    ensures Parse(params).TypeError?
    decreases |params|
  {
    if n < |params| {
      assert params[..|params| - 1][..n] == params[..n];
      FailureStays(params[..|params| - 1], n);
    } else {
      assert params[..n] == params;
    }
  }
}
