/** `apply_filters`: filter conditions compiled to SQL predicates, and what they select under
    SQL's three-valued logic. Columns hold text or NULL. */
module FilterSql {
  import opened Options
  import opened Text
  import opened Like

  datatype Error = AttributeError | ValueError
  datatype Result<T> = Ok(value: T) | Err(error: Error)

  /** A cell is a text or NULL; a row gives each column of the model a cell. */
  type Cell = Option<string>
  type Row = map<string, Cell>

  /** The value of an operator: a text, or a dictionary with its text `str(d)`. */
  datatype Operand = Str(text: string) | Nested(members: seq<(string, Operand)>, shown: string)

  /** What stands under one key of the filter dictionary. */
  datatype Condition =
    | Operators(ops: seq<(string, Operand)>)
    | Blocks(blocks: seq<seq<(string, Cell)>>)
    | Scalar(text: string)

  type Conditions = seq<(string, Condition)>

  datatype Comparison = Eq | Ne | Lt | Le | Gt | Ge

  datatype Clause =
    | Compare(column: string, comparison: Comparison, value: string)
    | CompareDict(column: string, comparison: Comparison, shown: string)
    | In(column: string, values: seq<string>)
    | Between(column: string, low: string, high: string)
    | LikePattern(column: string, pattern: string)
    | IsNull(column: string)
    | Not(clause: Clause)
    | And(clauses: seq<Clause>)
    | Or(clauses: seq<Clause>)

  // SQL

  datatype Truth = True | False | Unknown

  function Definite(b: bool): Truth {
    if b then True else False
  }

  function Conj(a: Truth, b: Truth): Truth {
    if a == False || b == False then False
    else if a == Unknown || b == Unknown then Unknown
    else True
  }

  function Neg(a: Truth): Truth {
    match a case True => False case False => True case Unknown => Unknown
  }

  /** Texts compared character by character. */
  predicate Less(a: string, b: string) {
    b != "" && (a == "" || a[0] < b[0] || (a[0] == b[0] && Less(a[1..], b[1..])))
  }

  predicate Compares(comparison: Comparison, a: string, b: string) {
    match comparison
    case Eq => a == b
    case Ne => a != b
    case Lt => Less(a, b)
    case Le => a == b || Less(a, b)
    case Gt => Less(b, a)
    case Ge => a == b || Less(b, a)
  }

  /** SQLAlchemy renders an AND or OR without rendered members as nothing at all. */
  predicate Blank(c: Clause) {
    (c.And? || c.Or?) && forall i | 0 <= i < |c.clauses| :: Blank(c.clauses[i])
  }

  function Eval(c: Clause, row: Row, esc: Escape): Truth
    decreases c, 0
  {
    match c
    case IsNull(k) => Definite(k !in row || row[k].None?)
    case Not(d) => Neg(Eval(d, row, esc))
    case And(cs) => EvalAll(cs, row, esc)
    case Or(cs) => EvalAny(cs, row, esc)
    case _ =>
      if c.column in row && row[c.column].Some?
      then Definite(TextHolds(c, row[c.column].value, esc))
      else Unknown
  }

  /** The predicates on a text column, which are unknown where the column is NULL. */
  predicate TextHolds(c: Clause, s: string, esc: Escape) {
    match c
    case Compare(_, comparison, v) => Compares(comparison, s, v)
    case In(_, vs) => s in vs
    case Between(_, lo, hi) => Compares(Ge, s, lo) && Compares(Le, s, hi)
    case LikePattern(_, p) => Matches(p, s, esc)
    case _ => false
  }

  function EvalAll(cs: seq<Clause>, row: Row, esc: Escape): Truth
    decreases cs, 1
  {
    if cs == [] then True
    else
      var rest := EvalAll(cs[1..], row, esc);
      if Blank(cs[0]) then rest else Conj(Eval(cs[0], row, esc), rest)
  }

  function EvalAny(cs: seq<Clause>, row: Row, esc: Escape): Truth
    decreases cs, 1
  {
    if cs == [] then False
    else
      var rest := EvalAny(cs[1..], row, esc);
      if Blank(cs[0]) then rest else Neg(Conj(Neg(Eval(cs[0], row, esc)), Neg(rest)))
  }

  /** `WHERE` keeps the rows on which the conjunction of the filters is true. */
  predicate Selected(filters: seq<Clause>, row: Row, esc: Escape) {
    EvalAll(filters, row, esc) == True
  }

  /** A comparison with a dictionary can be written but not run: the driver refuses the value. */
  predicate Runs(filters: seq<Clause>) {
    forall c | c in filters :: !c.CompareDict?
  }

  // Compilation

  datatype Operator =
    | EqOp | NeOp | LtOp | LteOp | GtOp | GteOp | InOp | NotInOp | ContainsOp | NotContainsOp
    | NullOp | NotNullOp | BetweenOp | StartsWithOp | EndsWithOp

  /** The operators that have a branch. */
  const OPERATORS := map[
    "$eq" := EqOp, "$ne" := NeOp, "$lt" := LtOp, "$lte" := LteOp, "$gt" := GtOp, "$gte" := GteOp,
    "$in" := InOp, "$notIn" := NotInOp, "$contains" := ContainsOp, "$notContains" := NotContainsOp,
    "$null" := NullOp, "$notNull" := NotNullOp, "$between" := BetweenOp,
    "$startsWith" := StartsWithOp, "$endsWith" := EndsWithOp]

  function Comparing(k: string, comparison: Comparison, v: Operand): Clause {
    match v
    case Str(text) => Compare(k, comparison, text)
    case Nested(_, shown) => CompareDict(k, comparison, shown)
  }

  /** `f"{value}"` */
  function Shown(v: Operand): string {
    match v
    case Str(text) => text
    case Nested(_, shown) => shown
  }

  /** `value.split(",")`; a dictionary has no such attribute. */
  function Items(v: Operand): Result<seq<string>> {
    match v
    case Str(text) => Ok(Split(text, ","))
    case Nested(_, _) => Err(AttributeError)
  }

  /** The predicate one operator adds. */
  function CompileOperator(k: string, op: Operator, v: Operand): Result<seq<Clause>> {
    match op
    case EqOp => Ok([Comparing(k, Eq, v)])
    case NeOp => Ok([Comparing(k, Ne, v)])
    case LtOp => Ok([Comparing(k, Lt, v)])
    case LteOp => Ok([Comparing(k, Le, v)])
    case GtOp => Ok([Comparing(k, Gt, v)])
    case GteOp => Ok([Comparing(k, Ge, v)])
    case InOp => (match Items(v) case Err(e) => Err(e) case Ok(items) => Ok([In(k, items)]))
    case NotInOp => (match Items(v) case Err(e) => Err(e) case Ok(items) => Ok([Not(In(k, items))]))
    case ContainsOp => Ok([LikePattern(k, "%" + Shown(v) + "%")])
    case NotContainsOp => Ok([Not(LikePattern(k, "%" + Shown(v) + "%"))])
    case NullOp => Ok([IsNull(k)])
    case NotNullOp => Ok([Not(IsNull(k))])
    case BetweenOp =>
      (match Items(v)
       case Err(e) => Err(e)
       case Ok(bounds) =>
         if |bounds| == 2 then Ok([Between(k, Strip(bounds[0]), Strip(bounds[1]))]) else Err(ValueError))
    case StartsWithOp => Ok([LikePattern(k, Shown(v) + "%")])
    case EndsWithOp => Ok([LikePattern(k, "%" + Shown(v))])
  }

  /** An operator without a branch adds nothing. */
  function CompileNamed(k: string, name: string, v: Operand): Result<seq<Clause>> {
    if name in OPERATORS then CompileOperator(k, OPERATORS[name], v) else Ok([])
  }

  function Append(a: Result<seq<Clause>>, b: Result<seq<Clause>>): Result<seq<Clause>> {
    if a.Err? then a else if b.Err? then b else Ok(a.value + b.value)
  }

  /** The operators of one field; a field the model does not have is skipped. */
  function CompileOperators(model: set<string>, field: string, ops: seq<(string, Operand)>)
    : Result<seq<Clause>>
  {
    if ops == [] then Ok([])
    else
      var (name, v) := ops[|ops| - 1];
      Append(CompileOperators(model, field, ops[..|ops| - 1]),
             if field in model then CompileNamed(field, name, v) else Ok([]))
  }

  function Equality(k: string, v: Cell): Clause {
    if v.None? then IsNull(k) else Compare(k, Eq, v.value)
  }

  /** One member of a `$or` or `$and` list: the conjunction of its equalities. */
  function BlockClause(block: seq<(string, Cell)>): Clause {
    And(seq(|block|, i requires 0 <= i < |block| => Equality(block[i].0, block[i].1)))
  }

  predicate Known(model: set<string>, block: seq<(string, Cell)>) {
    forall e | e in block :: e.0 in model
  }

  function CompileBlocks(model: set<string>, blocks: seq<seq<(string, Cell)>>): Result<seq<Clause>> {
    if forall b | b in blocks :: Known(model, b)
    then Ok(seq(|blocks|, i requires 0 <= i < |blocks| => BlockClause(blocks[i])))
    else Err(AttributeError)
  }

  /** The members a `$or` or `$and` loop goes over. The members of a dictionary or of a text are
      strings, which have no `items`. */
  function Members(condition: Condition): Result<seq<seq<(string, Cell)>>> {
    match condition
    case Blocks(blocks) => Ok(blocks)
    case Operators(ops) => if ops == [] then Ok([]) else Err(AttributeError)
    case Scalar(text) => if text == "" then Ok([]) else Err(AttributeError)
  }

  function CompileEntry(model: set<string>, field: string, condition: Condition): Result<seq<Clause>> {
    if field == "$or" || field == "$and" then
      match Members(condition)
      case Err(e) => Err(e)
      case Ok(blocks) =>
        match CompileBlocks(model, blocks)
        case Err(e) => Err(e)
        case Ok(subs) => Ok([if field == "$or" then Or(subs) else And(subs)])
    else if condition.Operators? then CompileOperators(model, field, condition.ops)
    else Ok([])
  }

  function Compile(model: set<string>, conditions: Conditions): Result<seq<Clause>> {
    if conditions == [] then Ok([])
    else
      var (field, condition) := conditions[|conditions| - 1];
      Append(Compile(model, conditions[..|conditions| - 1]), CompileEntry(model, field, condition))
  }

  // The loops

  method ApplyFilters(model: set<string>, conditions: Conditions) returns (r: Result<seq<Clause>>)
    ensures r == Compile(model, conditions)
  {
    var filters := [];
    for i := 0 to |conditions|
      invariant Compile(model, conditions[..i]) == Ok(filters)
    {
      var (field, condition) := conditions[i];
      assert conditions[..i + 1][..i] == conditions[..i];
      var added := CompileEntryLoop(model, field, condition);
      if added.Err? {
        ErrStays(model, conditions, i + 1);
        return added;
      }
      filters := filters + added.value;
    }
    assert conditions[..|conditions|] == conditions;
    r := Ok(filters);
  }

  method CompileEntryLoop(model: set<string>, field: string, condition: Condition)
    returns (r: Result<seq<Clause>>)
    ensures r == CompileEntry(model, field, condition)
  {
    var filters := [];
    if field == "$or" || field == "$and" {
      var members := Members(condition);
      if members.Err? {
        return Err(members.error);
      }
      for j := 0 to |members.value|
        invariant forall b | b in members.value[..j] :: Known(model, b)
        invariant filters == seq(j, i requires 0 <= i < j => BlockClause(members.value[i]))
      {
        if !Known(model, members.value[j]) {
          return Err(AttributeError);
        }
        filters := filters + [BlockClause(members.value[j])];
      }
      return Ok([if field == "$or" then Or(filters) else And(filters)]);
    } else if condition.Operators? {
      for j := 0 to |condition.ops|
        invariant CompileOperators(model, field, condition.ops[..j]) == Ok(filters)
      {
        assert condition.ops[..j + 1][..j] == condition.ops[..j];
        var (name, v) := condition.ops[j];
        if field in model {
          var clauses := CompileNamed(field, name, v);
          if clauses.Err? {
            OperatorErrStays(model, field, condition.ops, j + 1);
            return clauses;
          }
          filters := filters + clauses.value;
        } else {
          assert filters + [] == filters;
        }
      }
      assert condition.ops[..|condition.ops|] == condition.ops;
    }
    r := Ok(filters);
  }

  lemma {:induction false} ErrStays(model: set<string>, conditions: Conditions, n: nat)
    requires n <= |conditions| && Compile(model, conditions[..n]).Err?
    ensures Compile(model, conditions) == Compile(model, conditions[..n])
    decreases |conditions|
  {
    var last := |conditions| - 1;
    if n <= last {
      assert conditions[..last][..n] == conditions[..n];
      ErrStays(model, conditions[..last], n);
    } else {
      assert conditions[..n] == conditions;
    }
  }

  lemma {:induction false} OperatorErrStays(model: set<string>, field: string,
                                            ops: seq<(string, Operand)>, n: nat)
    requires n <= |ops| && CompileOperators(model, field, ops[..n]).Err?
    ensures CompileOperators(model, field, ops) == CompileOperators(model, field, ops[..n])
    decreases |ops|
  {
    var last := |ops| - 1;
    if n <= last {
      assert ops[..last][..n] == ops[..n];
      OperatorErrStays(model, field, ops[..last], n);
    } else {
      assert ops[..n] == ops;
    }
  }
}
