/** What compiled filters select under SQL's three-valued logic, against the documented table of
    operators (app/crud_base.py, the docstring of `apply_filters`). */
module FilterMeaning {
  import opened Options
  import opened Text
  import opened Like
  import opened FilterSql

  // The documented meaning

  /** The documented operators that ignore case, each with the one it is a variant of. */
  const INSENSITIVE := map[
    "$eqi" := EqOp, "$nei" := NeOp, "$containsi" := ContainsOp, "$notContainsi" := NotContainsOp,
    "$startsWithi" := StartsWithOp, "$endsWithi" := EndsWithOp]

  /** The operator table, on one cell. `$and`, `$or` and `$not` join the filters of a dictionary: all of
      them, one of them, not all of them. A NULL cell satisfies `$null` and no test of its text. A name
      outside the table says nothing, nor does a joining name with a text, which joins nothing. */
  predicate Documented(name: string, v: Operand, cell: Cell)
    decreases v
  {
    if name in OPERATORS then Holds(OPERATORS[name], v, cell)
    else if name in INSENSITIVE then
      cell.Some? && v.Str? && HoldsOn(INSENSITIVE[name], Lower(v.text), Lower(cell.value))
    else if name == "$not" && v.Nested? then
      !(forall i | 0 <= i < |v.members| :: Documented(v.members[i].0, v.members[i].1, cell))
    else if name == "$and" && v.Nested? then
      forall i | 0 <= i < |v.members| :: Documented(v.members[i].0, v.members[i].1, cell)
    else if name == "$or" && v.Nested? then
      exists i | 0 <= i < |v.members| :: Documented(v.members[i].0, v.members[i].1, cell)
    else true
  }

  predicate Holds(op: Operator, v: Operand, cell: Cell) {
    match op
    case NullOp => cell.None?
    case NotNullOp => cell.Some?
    case _ => cell.Some? && v.Str? && HoldsOn(op, v.text, cell.value)
  }

  predicate HoldsOn(op: Operator, v: string, s: string) {
    match op
    case EqOp => s == v
    case NeOp => s != v
    case LtOp => Less(s, v)
    case LteOp => s == v || Less(s, v)
    case GtOp => Less(v, s)
    case GteOp => s == v || Less(v, s)
    case InOp => s in Split(v, ",")
    case NotInOp => s !in Split(v, ",")
    case ContainsOp => Contains(s, v)
    case NotContainsOp => !Contains(s, v)
    case StartsWithOp => StartsWith(s, v)
    case EndsWithOp => EndsWith(s, v)
    case BetweenOp =>
      var bounds := Split(v, ",");
      && |bounds| == 2
      && var low, high := Strip(bounds[0]), Strip(bounds[1]);
      (s == low || Less(low, s)) && (s == high || Less(s, high))
    case NullOp => false
    case NotNullOp => true
  }

  predicate BlockHolds(block: seq<(string, Cell)>, row: Row) {
    forall e | e in block :: e.0 in row && row[e.0] == e.1
  }

  predicate NoMembers(blocks: seq<seq<(string, Cell)>>) {
    forall i | 0 <= i < |blocks| :: blocks[i] == []
  }

  /** An empty member is rendered as nothing, so it does not satisfy a disjunction. */
  predicate SomeBlockHolds(blocks: seq<seq<(string, Cell)>>, row: Row) {
    exists i | 0 <= i < |blocks| :: blocks[i] != [] && BlockHolds(blocks[i], row)
  }

  /** The operators whose value becomes part of a pattern. */
  predicate UsesPattern(op: Operator) {
    op.ContainsOp? || op.NotContainsOp? || op.StartsWithOp? || op.EndsWithOp?
  }

  /** The operator gets a text, without special characters where it becomes part of a pattern. */
  predicate WellUsed(op: Operator, v: Operand, esc: Escape) {
    (op.NullOp? || op.NotNullOp? || v.Str?) && (UsesPattern(op) && v.Str? ==> Plain(v.text, esc))
  }

  predicate AllWellUsed(ops: seq<(string, Operand)>, esc: Escape) {
    forall o | o in ops && o.0 in OPERATORS :: WellUsed(OPERATORS[o.0], o.1, esc)
  }

  /** Every operator that has a branch holds as documented. */
  predicate HandledHold(ops: seq<(string, Operand)>, cell: Cell) {
    forall o | o in ops && o.0 in OPERATORS :: Documented(o.0, o.1, cell)
  }

  /** One entry of the dictionary: its block lists, or every operator with a branch of a field the
      model has. */
  ghost predicate EntryHolds(model: set<string>, row: Row, field: string, condition: Condition)
    requires model <= row.Keys
  {
    if field == "$and" then
      condition.Blocks? ==> forall i | 0 <= i < |condition.blocks| :: BlockHolds(condition.blocks[i], row)
    else if field == "$or" then
      condition.Blocks? && !NoMembers(condition.blocks) ==>
        SomeBlockHolds(condition.blocks, row)
    else
      condition.Operators? && field in model ==> HandledHold(condition.ops, row[field])
  }

  /** Every operator of a column gets what it can use. */
  ghost predicate WellFormed(model: set<string>, conditions: Conditions, esc: Escape) {
    forall e | e in conditions && e.0 in model && e.1.Operators? :: AllWellUsed(e.1.ops, esc)
  }

  // Conjunctions

  lemma {:induction false} EvalAllAppend(a: seq<Clause>, b: seq<Clause>, row: Row, esc: Escape)
    ensures EvalAll(a + b, row, esc) == Conj(EvalAll(a, row, esc), EvalAll(b, row, esc))
  {
    if a == [] {
      assert a + b == b;
    } else {
      assert (a + b)[1..] == a[1..] + b;
      EvalAllAppend(a[1..], b, row, esc);
    }
  }

  lemma {:induction false} EvalAnyAppend(a: seq<Clause>, b: seq<Clause>, row: Row, esc: Escape)
    ensures EvalAny(a + b, row, esc) == True
            <==> EvalAny(a, row, esc) == True || EvalAny(b, row, esc) == True
  {
    if a == [] {
      assert a + b == b;
    } else {
      assert (a + b)[1..] == a[1..] + b;
      EvalAnyAppend(a[1..], b, row, esc);
    }
  }

  lemma SelectedOne(c: Clause, row: Row, esc: Escape)
    ensures Blank(c) ==> Selected([c], row, esc)
    ensures !Blank(c) ==> (Selected([c], row, esc) <==> Eval(c, row, esc) == True)
  {
    assert [c][1..] == [];
    assert EvalAll([c], row, esc) == if Blank([c][0]) then True else Conj(Eval([c][0], row, esc), True);
  }

  lemma SelectedAppend(a: seq<Clause>, b: seq<Clause>, row: Row, esc: Escape)
    ensures Selected(a + b, row, esc) <==> Selected(a, row, esc) && Selected(b, row, esc)
  {
    EvalAllAppend(a, b, row, esc);
  }

  lemma NullMeaning(k: string, op: Operator, v: Operand, row: Row, esc: Escape)
    requires k in row && (op.NullOp? || op.NotNullOp?)
    ensures Selected(CompileOperator(k, op, v).value, row, esc) <==> Holds(op, v, row[k])
  {
    var atom := IsNull(k);
    assert Eval(atom, row, esc) == Definite(row[k].None?);
    assert Eval(Not(atom), row, esc) == Neg(Definite(row[k].None?));
    SelectedOne(if op.NullOp? then atom else Not(atom), row, esc);
  }

  /** A predicate on a column's text, or the negation of one, selects no NULL. */
  lemma TextSelected(k: string, row: Row, esc: Escape, atom: Clause, negated: bool)
    requires k in row && !atom.IsNull? && !atom.Not? && !atom.And? && !atom.Or? && atom.column == k
    ensures Selected([if negated then Not(atom) else atom], row, esc)
            <==> row[k].Some? && TextHolds(atom, row[k].value, esc) != negated
  {
    var t := if row[k].Some? then Definite(TextHolds(atom, row[k].value, esc)) else Unknown;
    assert Eval(atom, row, esc) == t;
    assert Eval(Not(atom), row, esc) == Neg(t);
    SelectedOne(if negated then Not(atom) else atom, row, esc);
  }

  /** What an operator on text selects, whatever its value. */
  lemma OperatorSelected(k: string, op: Operator, v: Operand, row: Row, esc: Escape)
    requires k in row && !op.NullOp? && !op.NotNullOp? && CompileOperator(k, op, v).Ok?
    ensures var c := CompileOperator(k, op, v).value[0];
            var atom := if c.Not? then c.clause else c;
            Selected(CompileOperator(k, op, v).value, row, esc)
            <==> row[k].Some? && TextHolds(atom, row[k].value, esc) != c.Not?
  {
    var c := CompileOperator(k, op, v).value[0];
    TextSelected(k, row, esc, if c.Not? then c.clause else c, c.Not?);
  }

  /** One operator on one column. */
  lemma OperatorMeaning(k: string, op: Operator, v: Operand, row: Row, esc: Escape)
    requires k in row && CompileOperator(k, op, v).Ok? && WellUsed(op, v, esc)
    ensures Selected(CompileOperator(k, op, v).value, row, esc) <==> Holds(op, v, row[k])
  {
    if op.NullOp? || op.NotNullOp? {
      NullMeaning(k, op, v, row, esc);
    } else {
      OperatorSelected(k, op, v, row, esc);
      if row[k].Some? && UsesPattern(op) {
        PlainContains(v.text, row[k].value, esc);
        PlainStartsWith(v.text, row[k].value, esc);
        PlainEndsWith(v.text, row[k].value, esc);
      }
    }
  }

  // Which operators mean what the table says

  /** On this row the operator selects as documented. */
  ghost predicate Agrees(k: string, name: string, v: Operand, row: Row, esc: Escape)
    requires k in row && CompileNamed(k, name, v).Ok?
  {
    Selected(CompileNamed(k, name, v).value, row, esc) <==> Documented(name, v, row[k])
  }

  /** With special characters a pattern operator goes wrong on some text. */
  lemma PatternDisagrees(k: string, name: string, v: string, esc: Escape) returns (row: Row)
    requires name in OPERATORS && UsesPattern(OPERATORS[name]) && !Plain(v, esc)
    ensures k in row && !Agrees(k, name, Str(v), row, esc)
  {
    hide Matches, Contains, StartsWith, EndsWith, Plain;
    var op, s := OPERATORS[name], "";
    if op.StartsWithOp? {
      StartsWithExactlyWhenPlain(v, esc);
      s :| !(Matches(v + "%", s, esc) <==> StartsWith(s, v));
    } else if op.EndsWithOp? {
      EndsWithExactlyWhenPlain(v, esc);
      s :| !(Matches("%" + v, s, esc) <==> EndsWith(s, v));
    } else {
      ContainsExactlyWhenPlain(v, esc);
      s :| !(Matches("%" + v + "%", s, esc) <==> Contains(s, v));
    }
    row := map[k := Some(s)];
    OperatorSelected(k, op, Str(v), row, esc);
  }

  lemma NothingSelectsAll(row: Row, esc: Escape)
    ensures Selected([], row, esc)
  {
  }

  /** An operator with a text value selects the documented rows, for every row, if and only if it has
      a branch and its value no special character where that matters, or the table gives it no
      meaning on a text. The case-insensitive operators never do. */
  lemma OperatorExactly(k: string, name: string, v: string, esc: Escape)
    requires CompileNamed(k, name, Str(v)).Ok?
    ensures (forall row: Row | k in row :: Agrees(k, name, Str(v), row, esc))
       <==> name !in INSENSITIVE
            && (name in OPERATORS && UsesPattern(OPERATORS[name]) ==> Plain(v, esc))
  {
    if name in INSENSITIVE {
      CaseIsNotIgnored(k, name, v, esc);
      var row := map[k := None];
      assert !Agrees(k, name, Str(v), row, esc);
    } else if name !in OPERATORS {
      forall row: Row | k in row
        ensures Agrees(k, name, Str(v), row, esc)
      {
        NothingSelectsAll(row, esc);
      }
    } else if UsesPattern(OPERATORS[name]) && !Plain(v, esc) {
      var row := PatternDisagrees(k, name, v, esc);
    } else {
      forall row: Row | k in row
        ensures Agrees(k, name, Str(v), row, esc)
      {
        OperatorMeaning(k, OPERATORS[name], Str(v), row, esc);
      }
    }
  }

  /** No case-insensitive operator is applied: it selects the rows where the column is NULL, which it
      should not. */
  lemma CaseIsNotIgnored(k: string, name: string, v: string, esc: Escape)
    requires name in INSENSITIVE
    ensures var row := map[k := None];
            CompileNamed(k, name, Str(v)) == Ok([]) && Selected([], row, esc) && !Documented(name, Str(v), row[k])
  {
    NothingSelectsAll(map[k := None], esc);
  }

  /** `filters[name][$not][$eq]=x` selects the rows whose name is x. */
  lemma NotIsIgnored(esc: Escape)
    ensures var v := Nested([("$eq", Str("x"))], "{'$eq': 'x'}");
            var row := map["name" := Some("x")];
            CompileNamed("name", "$not", v) == Ok([]) && Selected([], row, esc)
            && !Documented("$not", v, row["name"])
  {
    hide Contains, Split, Strip, Less, Matches;
    var v := Nested([("$eq", Str("x"))], "{'$eq': 'x'}");
    assert v.members[0] == ("$eq", Str("x")) && Documented("$eq", Str("x"), Some("x"));
    NothingSelectsAll(map["name" := Some("x")], esc);
  }

  // The names that join filters, below a field

  type Filters = seq<(string, Operand)>

  predicate MemberHolds(members: Filters, i: int, cell: Cell) {
    0 <= i < |members| && Documented(members[i].0, members[i].1, cell)
  }

  predicate AllHold(members: Filters, cell: Cell) {
    forall i | 0 <= i < |members| :: MemberHolds(members, i, cell)
  }

  predicate AnyHolds(members: Filters, cell: Cell) {
    exists i | 0 <= i < |members| :: MemberHolds(members, i, cell)
  }

  predicate Joins(name: string) {
    name == "$not" || name == "$and" || name == "$or"
  }

  /** What joining `members` by `name` asks of a cell. */
  predicate Joined(name: string, members: Filters, cell: Cell) {
    if name == "$not" then !AllHold(members, cell)
    else if name == "$and" then AllHold(members, cell)
    else AnyHolds(members, cell)
  }

  /** On every row, the joining name selects as documented. */
  ghost predicate AlwaysAgrees(k: string, name: string, members: Filters, shown: string, esc: Escape)
    requires Joins(name)
  {
    forall row: Row | k in row :: Agrees(k, name, Nested(members, shown), row, esc)
  }

  /** Below a field the code has no branch for the joining names and selects every row: as documented,
      for every row, if and only if every cell satisfies what is asked. For `$not` that is: no cell
      satisfies all members. */
  lemma JoinExactly(k: string, name: string, members: Filters, shown: string, esc: Escape)
    requires Joins(name)
    ensures AlwaysAgrees(k, name, members, shown, esc) <==> forall cell: Cell :: Joined(name, members, cell)
  {
    var v := Nested(members, shown);
    forall row: Row | k in row
      ensures Agrees(k, name, v, row, esc) <==> Joined(name, members, row[k])
    {
      NothingSelectsAll(row, esc);
      assert forall i | 0 <= i < |members| ::
          MemberHolds(members, i, row[k]) == Documented(v.members[i].0, v.members[i].1, row[k]);
    }
    hide Agrees, Joined;
    if AlwaysAgrees(k, name, members, shown, esc) {
      forall cell: Cell
        ensures Joined(name, members, cell)
      {
        var row := map[k := cell];
        assert Agrees(k, name, v, row, esc);
      }
    }
  }

  /** A test of the cell: an operator of the table with a text value. */
  predicate IsTest(name: string, v: Operand) {
    (name in OPERATORS || name in INSENSITIVE) && v.Str?
  }

  function Base(name: string): Operator
    requires name in OPERATORS || name in INSENSITIVE
  {
    if name in OPERATORS then OPERATORS[name] else INSENSITIVE[name]
  }

  /** Some cell satisfies the test; the exceptions are `$lt` and the two `not contains` with the empty text,
      and a `$between` whose bounds are not two or are the wrong way round. */
  predicate CanHold(op: Operator, v: string) {
    match op
    case LtOp => v != ""
    case NotContainsOp => v != ""
    case BetweenOp =>
      var bounds := Split(v, ",");
      |bounds| == 2 && !Less(Strip(bounds[1]), Strip(bounds[0]))
    case _ => true
  }

  lemma {:induction false} LessTotal(a: string, b: string)
    ensures a == b || Less(a, b) || Less(b, a)
    ensures !(Less(a, b) && Less(b, a)) && !Less(a, a)
  {
    if a != "" && b != "" && a[0] == b[0] {
      LessTotal(a[1..], b[1..]);
      LessTotal(a[1..], a[1..]);
      assert a == [a[0]] + a[1..] && b == [b[0]] + b[1..];
    } else if a != "" {
      LessTotal(a[1..], a[1..]);
    }
  }

  lemma {:induction false} LessTransitive(a: string, b: string, c: string)
    requires Less(a, b) && Less(b, c)
    ensures Less(a, c)
  {
    if a != "" && a[0] == b[0] == c[0] {
      LessTransitive(a[1..], b[1..], c[1..]);
    }
  }

  lemma {:induction false} LessExtended(a: string)
    ensures Less(a, a + "a")
  {
    if a != "" {
      assert (a + "a")[1..] == a[1..] + "a";
      LessExtended(a[1..]);
    }
  }

  /** A text on which the test holds. */
  lemma TextWhere(op: Operator, v: string) returns (s: string)
    requires CanHold(op, v) && !op.NullOp?
    ensures HoldsOn(op, v, s)
    ensures op in INSENSITIVE.Values ==>
              if op.NotContainsOp? then s == "" else if op.NeOp? then |s| != |v| else s == v
  {
    match op {
      case EqOp => s := v;
      case NeOp => s := v + "a";
      case LtOp => s := "";
      case LteOp => s := v;
      case GtOp => s := v + "a"; LessExtended(v);
      case GteOp => s := v;
      case InOp => s := Split(v, ",")[0];
      case NotInOp =>
        s := ",";
        SplitLacks(v, ',');
        assert s in Split(v, ",") ==> ',' !in s;
      case ContainsOp => s := v; assert OccursAt(v, v, 0);
      case NotContainsOp => s := "";
      case NotNullOp => s := v;
      case BetweenOp => s := Strip(Split(v, ",")[0]); LessTotal(s, Strip(Split(v, ",")[1]));
      case StartsWithOp => s := v;
      case EndsWithOp => s := v;
    }
  }

  lemma NoTextWhere(op: Operator, v: string, s: string)
    requires !CanHold(op, v)
    ensures !HoldsOn(op, v, s)
  {
    if op.NotContainsOp? {
      assert OccursAt("", s, 0);
    } else if op.BetweenOp? && |Split(v, ",")| == 2 {
      var low, high := Strip(Split(v, ",")[0]), Strip(Split(v, ",")[1]);
      LessTotal(high, low);
      if Less(low, s) && Less(s, high) { LessTransitive(low, s, high); }
    }
  }

  /** A test that can hold holds of some cell. */
  lemma TestHolds(name: string, v: string) returns (cell: Cell)
    requires IsTest(name, Str(v)) && CanHold(Base(name), v)
    ensures Documented(name, Str(v), cell)
  {
    var op := Base(name);
    if op.NullOp? {
      cell := None;
    } else {
      var s := TextWhere(op, v);
      if name !in OPERATORS { LoweredText(op, v, s); }
      cell := Some(s);
    }
  }

  /** One that cannot holds of none. */
  lemma TestFails(name: string, v: string, cell: Cell)
    requires IsTest(name, Str(v)) && !CanHold(Base(name), v)
    ensures !Documented(name, Str(v), cell)
  {
    if cell.Some? {
      if name in OPERATORS {
        NoTextWhere(OPERATORS[name], v, cell.value);
      } else {
        NoTextWhere(INSENSITIVE[name], Lower(v), Lower(cell.value));
      }
    }
  }

  lemma LoweredText(op: Operator, v: string, s: string)
    requires op in INSENSITIVE.Values && HoldsOn(op, v, s)
    requires op.NotContainsOp? ==> s == ""
    requires !op.NotContainsOp? && !op.NeOp? ==> s == v
    requires op.NeOp? ==> |s| != |v|
    ensures HoldsOn(op, Lower(v), Lower(s))
  {
    assert OccursAt(Lower(v), Lower(v), 0);
  }

  /** `$not` over one test selects as documented, for every row, if and only if no cell can satisfy the
      test. */
  lemma NotOneExactly(k: string, name: string, v: string, shown: string, esc: Escape)
    requires IsTest(name, Str(v))
    ensures AlwaysAgrees(k, "$not", [(name, Str(v))], shown, esc) <==> !CanHold(Base(name), v)
  {
    var members := [(name, Str(v))];
    JoinExactly(k, "$not", members, shown, esc);
    hide AlwaysAgrees;
    if CanHold(Base(name), v) {
      var cell := TestHolds(name, v);
      assert forall i | 0 <= i < |members| :: MemberHolds(members, i, cell);
      assert !Joined("$not", members, cell);
    } else {
      forall cell: Cell
        ensures Joined("$not", members, cell)
      {
        TestFails(name, v, cell);
        assert !MemberHolds(members, 0, cell);
      }
    }
  }

  /** `$not` over several filters selects as documented if one of them is a test that no cell can
      satisfy. */
  lemma NotOfImpossible(k: string, members: Filters, i: nat, shown: string, esc: Escape)
    requires i < |members| && IsTest(members[i].0, members[i].1)
    requires !CanHold(Base(members[i].0), members[i].1.text)
    ensures AlwaysAgrees(k, "$not", members, shown, esc)
  {
    JoinExactly(k, "$not", members, shown, esc);
    assert members[i].1 == Str(members[i].1.text);
    forall cell: Cell
      ensures Joined("$not", members, cell)
    {
      TestFails(members[i].0, members[i].1.text, cell);
      assert !MemberHolds(members, i, cell);
    }
  }

  /** With `$eq` among them, it does if and only if the text of `$eq` fails another of them. */
  lemma NotWithEqualExactly(k: string, members: Filters, i: nat, shown: string, esc: Escape)
    requires i < |members| && members[i].0 == "$eq" && members[i].1.Str?
    ensures AlwaysAgrees(k, "$not", members, shown, esc) <==> !AllHold(members, Some(members[i].1.text))
  {
    JoinExactly(k, "$not", members, shown, esc);
    forall cell: Cell | AllHold(members, cell)
      ensures cell == Some(members[i].1.text)
    {
      assert MemberHolds(members, i, cell);
    }
    assert forall cell: Cell :: Joined("$not", members, cell) <==> !AllHold(members, cell);
  }

  /** No test holds of every cell: each fails on NULL, and `$null` on a text. */
  lemma FailsOn(name: string, v: string) returns (cell: Cell)
    requires IsTest(name, Str(v))
    ensures !Documented(name, Str(v), cell)
    ensures name != "$null" ==> cell == None
  {
    cell := if name == "$null" then Some("") else None;
  }

  /** `$and` over filters with a test among them never selects as documented. */
  lemma AndNever(k: string, members: Filters, i: nat, shown: string, esc: Escape)
    requires i < |members| && IsTest(members[i].0, members[i].1)
    ensures !AlwaysAgrees(k, "$and", members, shown, esc)
  {
    JoinExactly(k, "$and", members, shown, esc);
    var cell := FailsOn(members[i].0, members[i].1.text);
    assert !MemberHolds(members, i, cell) && !AllHold(members, cell) && !Joined("$and", members, cell);
  }

  /** `$or` over tests selects as documented if and only if one of them is `$null` and every text
      satisfies one of them. */
  lemma OrTestsExactly(k: string, members: Filters, shown: string, esc: Escape)
    requires forall i | 0 <= i < |members| :: IsTest(members[i].0, members[i].1)
    ensures AlwaysAgrees(k, "$or", members, shown, esc)
       <==> (exists i :: 0 <= i < |members| && members[i].0 == "$null")
            && forall s: string :: AnyHolds(members, Some(s))
  {
    JoinExactly(k, "$or", members, shown, esc);
    forall i | 0 <= i < |members|
      ensures MemberHolds(members, i, None) <==> members[i].0 == "$null"
    {
      var cell := FailsOn(members[i].0, members[i].1.text);
    }
    assert AnyHolds(members, None) <==> exists i :: 0 <= i < |members| && members[i].0 == "$null";
    assert forall cell: Cell :: Joined("$or", members, cell) <==> AnyHolds(members, cell);
    if forall s: string :: AnyHolds(members, Some(s)) {
      forall cell: Cell
        ensures AnyHolds(members, None) ==> AnyHolds(members, cell)
      {
        if cell.Some? { assert cell == Some(cell.value); }
      }
    }
  }

  /** So it does with `$null` and `$notNull` among them, and with one test it never does. */
  lemma OrOfNulls(k: string, members: Filters, i: nat, j: nat, shown: string, esc: Escape)
    requires i < |members| && j < |members| && members[i].0 == "$null" && members[j].0 == "$notNull"
    ensures AlwaysAgrees(k, "$or", members, shown, esc)
  {
    JoinExactly(k, "$or", members, shown, esc);
    forall cell: Cell
      ensures AnyHolds(members, cell)
    {
      assert MemberHolds(members, if cell == None then i else j, cell);
    }
  }

  lemma OrOneNever(k: string, name: string, v: string, shown: string, esc: Escape)
    requires IsTest(name, Str(v))
    ensures !AlwaysAgrees(k, "$or", [(name, Str(v))], shown, esc)
  {
    var members := [(name, Str(v))];
    JoinExactly(k, "$or", members, shown, esc);
    var cell := FailsOn(name, v);
    assert !MemberHolds(members, 0, cell) && !AnyHolds(members, cell) && !Joined("$or", members, cell);
  }

  /** `filters[name][$or][$eq]=x`, and the same with `$and`, selects the rows whose name is y. */
  lemma JoinsAreIgnored(esc: Escape)
    ensures var v := Nested([("$eq", Str("x"))], "{'$eq': 'x'}");
            var row := map["name" := Some("y")];
            CompileNamed("name", "$or", v) == Ok([]) && CompileNamed("name", "$and", v) == Ok([])
            && Selected([], row, esc)
            && !Documented("$or", v, row["name"]) && !Documented("$and", v, row["name"])
  {
    hide Contains, Split, Strip, Less, Matches;
    var v := Nested([("$eq", Str("x"))], "{'$eq': 'x'}");
    assert v.members[0] == ("$eq", Str("x")) && !Documented("$eq", Str("x"), Some("y"));
    NothingSelectsAll(map["name" := Some("y")], esc);
  }

  /** `filters[$not][name][$eq]=x`, above the fields, is skipped as a field the model does not have. */
  lemma NotAboveFieldsIsIgnored(model: set<string>, esc: Escape)
    requires "$not" !in model
    ensures var ops := [("name", Nested([("$eq", Str("x"))], "{'$eq': 'x'}"))];
            Compile(model, [("$not", Operators(ops))]) == Ok([])
            && Selected([], map["name" := Some("x")], esc)
  {
    var ops := [("name", Nested([("$eq", Str("x"))], "{'$eq': 'x'}"))];
    var cs: Conditions := [("$not", Operators(ops))];
    assert ops[..0] == [] && cs[..0] == [];
    var none: seq<Clause> := [];
    assert none + none == none;
    assert CompileOperators(model, "$not", ops) == Append(CompileOperators(model, "$not", ops[..0]), Ok([]));
    assert Compile(model, cs) == Append(Compile(model, cs[..0]), CompileEntry(model, "$not", Operators(ops)));
    NothingSelectsAll(map["name" := Some("x")], esc);
  }

  // Meaning is preserved

  lemma {:induction false} OperatorsMeaning(model: set<string>, field: string,
                                            ops: seq<(string, Operand)>, row: Row, esc: Escape)
    requires field in model ==> field in row
    requires CompileOperators(model, field, ops).Ok? && (field in model ==> AllWellUsed(ops, esc))
    ensures Selected(CompileOperators(model, field, ops).value, row, esc)
            <==> (field in model ==> HandledHold(ops, row[field]))
  {
    if ops != [] {
      var init, name, v := ops[..|ops| - 1], ops[|ops| - 1].0, ops[|ops| - 1].1;
      assert ops == init + [(name, v)];
      OperatorsMeaning(model, field, init, row, esc);
      var cs := CompileOperators(model, field, init).value;
      if field in model && name in OPERATORS {
        OperatorMeaning(field, OPERATORS[name], v, row, esc);
        SelectedAppend(cs, CompileOperator(field, OPERATORS[name], v).value, row, esc);
      } else {
        SelectedAppend(cs, [], row, esc);
      }
    }
  }

  lemma {:induction false} EqualitiesMeaning(cs: seq<Clause>, block: seq<(string, Cell)>, row: Row,
                                             esc: Escape)
    requires |cs| == |block|
    requires forall i | 0 <= i < |cs| :: cs[i] == Equality(block[i].0, block[i].1)
    requires forall e | e in block :: e.0 in row
    ensures EvalAll(cs, row, esc) == True <==> BlockHolds(block, row)
  {
    if block != [] {
      assert block[0] in block && block == [block[0]] + block[1..];
      EqualitiesMeaning(cs[1..], block[1..], row, esc);
    }
  }

  lemma BlockMeaning(block: seq<(string, Cell)>, row: Row, esc: Escape)
    requires forall e | e in block :: e.0 in row
    ensures Blank(BlockClause(block)) <==> block == []
    ensures Eval(BlockClause(block), row, esc) == True <==> BlockHolds(block, row)
  {
    var c := BlockClause(block);
    EqualitiesMeaning(c.clauses, block, row, esc);
    if block != [] {
      assert c.clauses[0] in c.clauses && !Blank(c.clauses[0]);
    }
  }

  /** A block list, under AND and under OR. */
  lemma {:induction false} BlocksMeaning(subs: seq<Clause>, blocks: seq<seq<(string, Cell)>>,
                                         row: Row, esc: Escape)
    requires |subs| == |blocks| && forall i | 0 <= i < |subs| :: subs[i] == BlockClause(blocks[i])
    requires forall b | b in blocks :: Known(row.Keys, b)
    ensures EvalAll(subs, row, esc) == True
            <==> forall i | 0 <= i < |blocks| :: BlockHolds(blocks[i], row)
    ensures EvalAny(subs, row, esc) == True <==> SomeBlockHolds(blocks, row)
  {
    hide Eval, BlockClause;
    if blocks != [] {
      assert blocks[0] in blocks && blocks == [blocks[0]] + blocks[1..];
      BlockMeaning(blocks[0], row, esc);
      BlocksMeaning(subs[1..], blocks[1..], row, esc);
      SomeBlockFirst(blocks, row);
    }
  }

  lemma SomeBlockFirst(blocks: seq<seq<(string, Cell)>>, row: Row)
    requires blocks != []
    ensures SomeBlockHolds(blocks, row)
            <==> (blocks[0] != [] && BlockHolds(blocks[0], row)) || SomeBlockHolds(blocks[1..], row)
  {
    if i :| 0 <= i < |blocks[1..]| && blocks[1..][i] != [] && BlockHolds(blocks[1..][i], row) {
      assert blocks[i + 1] != [] && BlockHolds(blocks[i + 1], row);
    }
    if i :| 0 < i < |blocks| && blocks[i] != [] && BlockHolds(blocks[i], row) {
      assert blocks[1..][i - 1] != [] && BlockHolds(blocks[1..][i - 1], row);
    }
  }

  lemma BlocksBlank(subs: seq<Clause>, blocks: seq<seq<(string, Cell)>>, row: Row, esc: Escape)
    requires |subs| == |blocks| && forall i | 0 <= i < |subs| :: subs[i] == BlockClause(blocks[i])
    requires forall b | b in blocks :: Known(row.Keys, b)
    ensures Blank(Or(subs)) <==> NoMembers(blocks)
    ensures Blank(And(subs)) <==> NoMembers(blocks)
  {
    forall i | 0 <= i < |subs|
      ensures Blank(subs[i]) <==> blocks[i] == []
    {
      assert blocks[i] in blocks;
      BlockMeaning(blocks[i], row, esc);
    }
  }

  lemma OrMeaning(subs: seq<Clause>, blocks: seq<seq<(string, Cell)>>, row: Row, esc: Escape)
    requires |subs| == |blocks| && forall i | 0 <= i < |subs| :: subs[i] == BlockClause(blocks[i])
    requires forall b | b in blocks :: Known(row.Keys, b)
    ensures Selected([Or(subs)], row, esc) <==> NoMembers(blocks) || SomeBlockHolds(blocks, row)
  {
    BlocksBlank(subs, blocks, row, esc);
    BlocksMeaning(subs, blocks, row, esc);
    SelectedOne(Or(subs), row, esc);
    assert Eval(Or(subs), row, esc) == EvalAny(subs, row, esc);
  }

  lemma AndMeaning(subs: seq<Clause>, blocks: seq<seq<(string, Cell)>>, row: Row, esc: Escape)
    requires |subs| == |blocks| && forall i | 0 <= i < |subs| :: subs[i] == BlockClause(blocks[i])
    requires forall b | b in blocks :: Known(row.Keys, b)
    ensures Selected([And(subs)], row, esc) <==> forall i | 0 <= i < |blocks| :: BlockHolds(blocks[i], row)
  {
    BlocksBlank(subs, blocks, row, esc);
    BlocksMeaning(subs, blocks, row, esc);
    SelectedOne(And(subs), row, esc);
    assert Eval(And(subs), row, esc) == EvalAll(subs, row, esc);
    assert NoMembers(blocks) ==> forall i | 0 <= i < |blocks| :: BlockHolds(blocks[i], row);
  }

  /** A disjunction in the ordinary sense, where an empty member holds. */
  predicate AnyBlockHolds(blocks: seq<seq<(string, Cell)>>, row: Row) {
    exists i | 0 <= i < |blocks| :: BlockHolds(blocks[i], row)
  }

  /** The length of a text longer than every text in the members. */
  function Beyond(block: seq<(string, Cell)>): nat {
    if block == [] then 1
    else
      var rest, v := Beyond(block[1..]), block[0].1;
      if v.Some? && |v.value| >= rest then |v.value| + 1 else rest
  }

  function BeyondAll(blocks: seq<seq<(string, Cell)>>): nat {
    if blocks == [] then 1
    else
      var rest, b := BeyondAll(blocks[1..]), Beyond(blocks[0]);
      if b > rest then b else rest
  }

  lemma {:induction false} BeyondBlock(block: seq<(string, Cell)>, i: nat)
    requires i < |block| && block[i].1.Some?
    ensures |block[i].1.value| < Beyond(block)
  {
    if i > 0 { BeyondBlock(block[1..], i - 1); }
  }

  lemma {:induction false} BeyondEach(blocks: seq<seq<(string, Cell)>>, i: nat)
    requires i < |blocks|
    ensures Beyond(blocks[i]) <= BeyondAll(blocks)
  {
    if i > 0 { BeyondEach(blocks[1..], i - 1); }
  }

  /** A row whose every text is too long for any non-empty member. */
  lemma UnmatchedRow(model: set<string>, blocks: seq<seq<(string, Cell)>>) returns (row: Row)
    ensures row.Keys == model
    ensures forall i | 0 <= i < |blocks| && blocks[i] != [] :: !BlockHolds(blocks[i], row)
  {
    var s := seq(BeyondAll(blocks), _ => 'x');
    row := map k | k in model :: Some(s);
    forall i | 0 <= i < |blocks| && blocks[i] != []
      ensures !BlockHolds(blocks[i], row)
    {
      var e := blocks[i][0];
      assert e in blocks[i];
      BeyondEach(blocks, i);
      if e.1.Some? { BeyondBlock(blocks[i], 0); }
    }
  }

  /** `$or` selects, on every row, what a disjunction of its members selects if and only if the list is
      not empty and does not mix empty members with others. */
  lemma OrExactly(model: set<string>, blocks: seq<seq<(string, Cell)>>, esc: Escape)
    requires forall b | b in blocks :: Known(model, b)
    ensures (forall row: Row | row.Keys == model ::
              Selected([Or(CompileBlocks(model, blocks).value)], row, esc) <==> AnyBlockHolds(blocks, row))
       <==> blocks != [] && (NoMembers(blocks) || forall i | 0 <= i < |blocks| :: blocks[i] != [])
  {
    var subs := CompileBlocks(model, blocks).value;
    forall row: Row | row.Keys == model
      ensures Selected([Or(subs)], row, esc) <==> NoMembers(blocks) || SomeBlockHolds(blocks, row)
    {
      OrMeaning(subs, blocks, row, esc);
    }
    hide Selected, CompileBlocks, Known;
    var row := UnmatchedRow(model, blocks);
    if blocks != [] && NoMembers(blocks) {
      forall row: Row
        ensures AnyBlockHolds(blocks, row)
      {
        assert BlockHolds(blocks[0], row);
      }
    } else if i :| 0 <= i < |blocks| && blocks[i] == [] {
      assert BlockHolds(blocks[i], row);
    }
  }

  lemma EntryMeaning(model: set<string>, field: string, condition: Condition, row: Row, esc: Escape)
    requires model <= row.Keys && CompileEntry(model, field, condition).Ok?
    requires field in model && condition.Operators? ==> AllWellUsed(condition.ops, esc)
    ensures Selected(CompileEntry(model, field, condition).value, row, esc)
            <==> EntryHolds(model, row, field, condition)
  {
    if field == "$or" || field == "$and" {
      var blocks := Members(condition).value;
      var subs := CompileBlocks(model, blocks).value;
      OrMeaning(subs, blocks, row, esc);
      AndMeaning(subs, blocks, row, esc);
    } else if condition.Operators? {
      OperatorsMeaning(model, field, condition.ops, row, esc);
    }
  }

  /** Compilation succeeds entry by entry, and the conjunction selects what every entry selects. */
  lemma {:induction false} SelectedByEntry(model: set<string>, conditions: Conditions, row: Row, esc: Escape)
    requires Compile(model, conditions).Ok?
    ensures forall e | e in conditions :: CompileEntry(model, e.0, e.1).Ok?
    ensures Selected(Compile(model, conditions).value, row, esc)
            <==> forall e | e in conditions :: Selected(CompileEntry(model, e.0, e.1).value, row, esc)
  {
    if conditions != [] {
      var init, last := conditions[..|conditions| - 1], conditions[|conditions| - 1];
      assert conditions == init + [last];
      assert forall e :: e in conditions <==> e in init || e == last;
      SelectedByEntry(model, init, row, esc);
      SelectedAppend(Compile(model, init).value, CompileEntry(model, last.0, last.1).value, row, esc);
    }
  }

  /** The compiled conjunction selects exactly the rows that satisfy every entry. */
  lemma CompilePreservesMeaning(model: set<string>, conditions: Conditions, row: Row, esc: Escape)
    requires model <= row.Keys && Compile(model, conditions).Ok?
    requires WellFormed(model, conditions, esc)
    ensures Selected(Compile(model, conditions).value, row, esc)
            <==> forall e | e in conditions :: EntryHolds(model, row, e.0, e.1)
  {
    hide Compile, CompileEntry, Selected, EntryHolds;
    SelectedByEntry(model, conditions, row, esc);
    forall e | e in conditions
      ensures Selected(CompileEntry(model, e.0, e.1).value, row, esc) <==> EntryHolds(model, row, e.0, e.1)
    {
      EntryMeaning(model, e.0, e.1, row, esc);
    }
  }

  // Which inputs raise

  /** The inputs on which Python raises: a block list that is not a list, a block naming an unknown
      column, an operator of a known field that cannot take its value apart. */
  predicate Malformed(model: set<string>, field: string, condition: Condition) {
    if field == "$or" || field == "$and" then
      match condition
      case Operators(ops) => ops != []
      case Scalar(text) => text != ""
      case Blocks(blocks) => exists b :: b in blocks && !Known(model, b)
    else
      condition.Operators? && field in model && exists o :: o in condition.ops && BadOperand(o.0, o.1)
  }

  /** A list operator with a dictionary, or bounds that are not two. */
  predicate BadOperand(name: string, v: Operand) {
    name in OPERATORS
    && match OPERATORS[name]
       case InOp => v.Nested?
       case NotInOp => v.Nested?
       case BetweenOp => v.Nested? || |Split(v.text, ",")| != 2
       case _ => false
  }

  lemma {:induction false} OperatorsFail(model: set<string>, field: string, ops: seq<(string, Operand)>)
    ensures CompileOperators(model, field, ops).Err?
            <==> field in model && exists o :: o in ops && BadOperand(o.0, o.1)
  {
    if ops != [] {
      var init, last := ops[..|ops| - 1], ops[|ops| - 1];
      assert ops == init + [last];
      assert forall o :: o in ops <==> o in init || o == last;
      OperatorsFail(model, field, init);
      assert CompileNamed(field, last.0, last.1).Err? <==> BadOperand(last.0, last.1);
    }
  }

  /** Compilation fails exactly when some entry is malformed, whatever stands around it. */
  lemma {:induction false} CompileFails(model: set<string>, conditions: Conditions)
    ensures Compile(model, conditions).Err?
            <==> exists e :: e in conditions && Malformed(model, e.0, e.1)
  {
    if conditions != [] {
      var init, last := conditions[..|conditions| - 1], conditions[|conditions| - 1];
      assert conditions == init + [last];
      assert forall e :: e in conditions <==> e in init || e == last;
      CompileFails(model, init);
      if last.1.Operators? {
        OperatorsFail(model, last.0, last.1.ops);
      }
    }
  }

  /** The order and repetition of the entries do not matter. */
  lemma OrderIrrelevant(model: set<string>, a: Conditions, b: Conditions, row: Row, esc: Escape)
    requires forall e :: e in a <==> e in b
    ensures Compile(model, a).Err? <==> Compile(model, b).Err?
    ensures Compile(model, a).Ok? ==>
              (Selected(Compile(model, a).value, row, esc) <==> Selected(Compile(model, b).value, row, esc))
  {
    hide Compile, CompileEntry, Selected, Malformed;
    CompileFails(model, a);
    CompileFails(model, b);
    if Compile(model, a).Ok? {
      SelectedByEntry(model, a, row, esc);
      SelectedByEntry(model, b, row, esc);
    }
  }

  /** A comparison operator of a known field gets a dictionary. */
  predicate ComparesDict(model: set<string>, field: string, condition: Condition) {
    field != "$or" && field != "$and" && field in model && condition.Operators?
    && exists o :: o in condition.ops && IsDictComparison(o.0, o.1)
  }

  predicate IsDictComparison(name: string, v: Operand) {
    name in OPERATORS && OPERATORS[name] in {EqOp, NeOp, LtOp, LteOp, GtOp, GteOp} && v.Nested?
  }

  lemma RunsAppend(a: seq<Clause>, b: seq<Clause>)
    ensures Runs(a + b) <==> Runs(a) && Runs(b)
  {
    assert forall c :: c in a + b <==> c in a || c in b;
  }

  lemma {:induction false} OperatorsRun(model: set<string>, field: string, ops: seq<(string, Operand)>)
    requires CompileOperators(model, field, ops).Ok?
    ensures Runs(CompileOperators(model, field, ops).value)
       <==> !(field in model && exists o :: o in ops && IsDictComparison(o.0, o.1))
  {
    if ops != [] {
      var init, last := ops[..|ops| - 1], ops[|ops| - 1];
      assert ops == init + [last];
      assert forall o :: o in ops <==> o in init || o == last;
      OperatorsRun(model, field, init);
      if field in model {
        var c := CompileNamed(field, last.0, last.1).value;
        assert Runs(c) <==> !IsDictComparison(last.0, last.1) by {
          assert c != [] ==> c[0] in c;
        }
        RunsAppend(CompileOperators(model, field, init).value, c);
      } else {
        RunsAppend(CompileOperators(model, field, init).value, []);
      }
    }
  }

  /** The compiled query can be run exactly when no comparison of a known field gets a dictionary. */
  lemma {:induction false} QueryRuns(model: set<string>, conditions: Conditions)
    requires Compile(model, conditions).Ok?
    ensures Runs(Compile(model, conditions).value)
       <==> !exists e :: e in conditions && ComparesDict(model, e.0, e.1)
  {
    if conditions != [] {
      var init, last := conditions[..|conditions| - 1], conditions[|conditions| - 1];
      assert conditions == init + [last];
      assert forall e :: e in conditions <==> e in init || e == last;
      QueryRuns(model, init);
      if last.1.Operators? && last.0 != "$or" && last.0 != "$and" {
        OperatorsRun(model, last.0, last.1.ops);
      }
      RunsAppend(Compile(model, init).value, CompileEntry(model, last.0, last.1).value);
    }
  }

  // Complementary operators

  predicate Complementary(op: string, negated: string) {
    (op, negated) in [("$eq", "$ne"), ("$in", "$notIn"), ("$contains", "$notContains")]
  }

  ghost function Indices(table: seq<Row>): (r: set<int>)
    ensures forall i :: i in r <==> 0 <= i < |table|
  {
    set i {:trigger table[i]} | 0 <= i < |table|
  }

  /** The rows of a table that one operator on one field selects. */
  ghost function RowsWhere(model: set<string>, table: seq<Row>, field: string, op: string, v: string,
                           esc: Escape): set<int>
  {
    set i | 0 <= i < |table| &&
      var compiled := Compile(model, [(field, Operators([(op, Str(v))]))]);
      compiled.Ok? && Selected(compiled.value, table[i], esc)
  }

  lemma CompileOne(model: set<string>, field: string, op: string, v: Operand)
    requires field in model && field != "$or" && field != "$and"
    ensures Compile(model, [(field, Operators([(op, v)]))]) == CompileNamed(field, op, v)
  {
    hide CompileNamed;
    var ops, conditions := [(op, v)], [(field, Operators([(op, v)]))];
    assert ops[..0] == [] && conditions[..0] == [];
    assert CompileOperators(model, field, ops) == Append(Ok([]), CompileNamed(field, op, v));
    assert Compile(model, conditions) == Append(Ok([]), CompileOperators(model, field, ops));
    var c := CompileNamed(field, op, v);
    if c.Ok? {
      assert [] + c.value == c.value;
    }
  }

  /** An operator, its negation and `$null` split every table into three disjoint parts, for every
      value, with or without special characters. */
  lemma ComplementaryOperatorsPartition(model: set<string>, table: seq<Row>, field: string,
                                        op: string, negated: string, v: string, esc: Escape)
    requires field in model && field != "$or" && field != "$and"
    requires forall row | row in table :: model <= row.Keys
    requires Complementary(op, negated)
    ensures var yes := RowsWhere(model, table, field, op, v, esc);
            var no := RowsWhere(model, table, field, negated, v, esc);
            var absent := RowsWhere(model, table, field, "$null", v, esc);
            && yes !! no !! absent
            && yes + no + absent == Indices(table)
  {
    hide Compile, CompileNamed, Selected;
    CompileOne(model, field, op, Str(v));
    CompileOne(model, field, negated, Str(v));
    CompileOne(model, field, "$null", Str(v));
    var yes, no := RowsWhere(model, table, field, op, v, esc), RowsWhere(model, table, field, negated, v, esc);
    var absent := RowsWhere(model, table, field, "$null", v, esc);
    forall i | 0 <= i < |table|
      ensures (i in yes || i in no || i in absent) && !(i in yes && i in no)
      ensures !(i in yes && i in absent) && !(i in no && i in absent)
    {
      OneOfThree(table[i], field, op, negated, Str(v), esc);
    }
  }

  lemma OneOfThree(row: Row, field: string, op: string, negated: string, v: Operand, esc: Escape)
    requires field in row && Complementary(op, negated) && v.Str?
    ensures CompileNamed(field, op, v).Ok? && CompileNamed(field, negated, v).Ok? && CompileNamed(field, "$null", v).Ok?
    ensures var yes := Selected(CompileNamed(field, op, v).value, row, esc);
            var no := Selected(CompileNamed(field, negated, v).value, row, esc);
            var absent := Selected(CompileNamed(field, "$null", v).value, row, esc);
            (yes || no || absent) && !(yes && no) && !(yes && absent) && !(no && absent)
  {
    NullMeaning(field, NullOp, v, row, esc);
    OperatorSelected(field, OPERATORS[op], v, row, esc);
    OperatorSelected(field, OPERATORS[negated], v, row, esc);
  }
}
