/** The dynamic filter and sort compiler: a client-supplied tree of filter
    nodes becomes a Dynamic LINQ where-string with positional `@i`
    placeholders plus the array of values they bind to, and a list of sort
    specifications becomes an order-by string. Only the strings are
    modelled; parsing and running them belongs to the query engine. */
module DynamicFilter {
  import opened Wrappers
  import opened Text

  // ---------------------------------------------------------------------
  // Wire shapes

  /** One node of a filter tree. A null `Filters` list behaves exactly like
      an empty one everywhere, so children are a plain sequence. */
  datatype Filter = Filter(
    field: Option<string>,
    operator: Option<string>,
    value: Option<string>,
    logic: Option<string>,
    filters: seq<Filter>)

  datatype Sort = Sort(field: Option<string>, dir: Option<string>)

  datatype DynamicQuery = DynamicQuery(filter: Option<Filter>, sort: Option<seq<Sort>>)

  /** The `ArgumentException`s the compiler throws, by message. */
  datatype FilterError = FieldInvalid | OperatorInvalid | LogicInvalid | DirInvalid

  function Message(e: FilterError): string {
    match e
    case FieldInvalid => "Field is invalid"
    case OperatorInvalid => "Operator is invalid"
    case LogicInvalid => "Logic is invalid"
    case DirInvalid => "Dir is invalid"
  }

  // ---------------------------------------------------------------------
  // The tables

  const Orders: seq<string> := ["asc", "desc"]
  const Logics: seq<string> := ["and", "or"]

  /** Operator keyword (lower case) to the text emitted for it. */
  const Operators: map<string, string> := map[
    "eq" := "==",
    "neq" := "!=",
    "lt" := "<",
    "lte" := "<=",
    "gt" := ">",
    "gte" := ">=",
    "contains" := "Contains",
    "doesnotcontain" := "DoesNotContain",
    "startswith" := "StartsWith",
    "endswith" := "EndsWith",
    "isnull" := "==",
    "isnotnull" := "!=",
    "isempty" := "==",
    "isnotempty" := "!="]

  /** The operators that emit a test without a placeholder; matched as written, not lower-cased. */
  const NullTests: set<string> := {"isnull", "isnotnull", "isempty", "isnotempty"}

  predicate NullOrEmpty(s: Option<string>) {
    s.None? || s.value == []
  }

  // ---------------------------------------------------------------------
  // Pre-order listing of a filter tree (GetAllFilters / GetFilters)

  function Size(f: Filter): nat {
    1 + SizeAll(f.filters)
  }

  function SizeAll(fs: seq<Filter>): nat {
    if fs == [] then 0 else Size(fs[0]) + SizeAll(fs[1..])
  }

  /** The specification of GetAllFilters: the node itself, then each child's listing in order. */
  function Flatten(f: Filter): seq<Filter> {
    [f] + FlattenAll(f.filters)
  }

  function FlattenAll(fs: seq<Filter>): seq<Filter> {
    if fs == [] then [] else Flatten(fs[0]) + FlattenAll(fs[1..])
  }

  /** The listing has one entry per node of the tree and starts with the root. */
  lemma {:induction false} FlattenSize(f: Filter)
    ensures |Flatten(f)| == Size(f) && Flatten(f)[0] == f
  {
    FlattenAllSize(f.filters);
  }

  lemma {:induction false} FlattenAllSize(fs: seq<Filter>)
    ensures |FlattenAll(fs)| == SizeAll(fs)
  {
    if fs != [] {
      FlattenSize(fs[0]);
      FlattenAllSize(fs[1..]);
    }
  }

  lemma {:induction false} FlattenAllAppend(fs: seq<Filter>, g: Filter)
    ensures FlattenAll(fs + [g]) == FlattenAll(fs) + Flatten(g)
    ensures SizeAll(fs + [g]) == SizeAll(fs) + Size(g)
  {
    if fs == [] {
      assert [g][1..] == [];
    } else {
      assert (fs + [g])[0] == fs[0] && (fs + [g])[1..] == fs[1..] + [g];
      FlattenAllAppend(fs[1..], g);
    }
  }

  /** Pre-order: child `j` of `f` occupies the block that starts right after
      the root and the blocks of the children before it. */
  lemma {:induction false} PreOrderBlock(f: Filter, j: nat)
    requires j < |f.filters|
    ensures SizeAll(f.filters[..j + 1]) == SizeAll(f.filters[..j]) + Size(f.filters[j])
    ensures 1 + SizeAll(f.filters[..j + 1]) <= |Flatten(f)|
    ensures Flatten(f)[1 + SizeAll(f.filters[..j]) .. 1 + SizeAll(f.filters[..j + 1])] == Flatten(f.filters[j])
  {
    var fs := f.filters;
    assert fs[..j + 1] == fs[..j] + [fs[j]];
    FlattenAllAppend(fs[..j], fs[j]);
    FlattenAllSize(fs[..j]);
    FlattenSize(fs[j]);
    assert fs == fs[..j + 1] + fs[j + 1..];
    FlattenAllConcat(fs[..j + 1], fs[j + 1..]);
    FlattenAllSize(fs[..j + 1]);
  }

  lemma {:induction false} FlattenAllConcat(xs: seq<Filter>, ys: seq<Filter>)
    ensures FlattenAll(xs + ys) == FlattenAll(xs) + FlattenAll(ys)
  {
    if xs == [] {
      assert xs + ys == ys;
    } else {
      assert (xs + ys)[0] == xs[0] && (xs + ys)[1..] == xs[1..] + ys;
      FlattenAllConcat(xs[1..], ys);
    }
  }

  /** The list that GetFilters appends to. */
  class FilterList {
    var items: seq<Filter>

    constructor ()
      ensures items == []
    {
      items := [];
    }

    method Add(f: Filter)
      modifies this
      ensures items == old(items) + [f]
    {
      items := items + [f];
    }
  }

  /** Appends `f` and then, recursively, each child's nodes to `filters`. */
  method GetFilters(f: Filter, filters: FilterList)
    modifies filters
    ensures filters.items == old(filters.items) + Flatten(f)
    decreases f
  {
    filters.Add(f);
    if |f.filters| > 0 {
      for i := 0 to |f.filters|
        invariant filters.items == old(filters.items) + [f] + FlattenAll(f.filters[..i])
      {
        GetFilters(f.filters[i], filters);
        assert f.filters[..i + 1] == f.filters[..i] + [f.filters[i]];
        FlattenAllAppend(f.filters[..i], f.filters[i]);
      }
      assert f.filters[..|f.filters|] == f.filters;
    }
  }

  method GetAllFilters(f: Filter) returns (r: seq<Filter>)
    ensures r == Flatten(f)
  {
    var filters := new FilterList();
    GetFilters(f, filters);
    r := filters.items;
  }

  /** `filters.Select(x => x.Value).ToArray()`: one entry per listed node, null or not. */
  function ParameterValues(filters: seq<Filter>): (values: seq<Option<string>>)
    ensures |values| == |filters|
    ensures forall i :: 0 <= i < |filters| ==> values[i] == filters[i].value
  {
    seq(|filters|, i requires 0 <= i < |filters| => filters[i].value)
  }

  // ---------------------------------------------------------------------
  // Where-string generation (Transform)

  /** The shape of an emitted where-string, before rendering. */
  datatype Pred =
    | Comparison(negated: bool, field: string, comparison: string, param: nat)  // [!]np(F).OP(@i)
    | NullCheck(field: string, comparison: string)                             // np(F).OP
    | NoCondition                                                              // ""
    | Group(own: Pred, logic: string, children: seq<Pred>)                     // (W L (T1 L ... L Tn))

  function Render(p: Pred): string {
    match p
    case Comparison(negated, field, comparison, param) =>
      (if negated then "!" else "") + "np(" + field + ")." + comparison + "(@" + NatToString(param) + ")"
    case NullCheck(field, comparison) =>
      "np(" + field + ")." + comparison
    case NoCondition =>
      ""
    case Group(own, logic, children) =>
      "(" + Render(own) + " " + logic + " (" + Join(" " + logic + " ", RenderAll(children)) + "))"
  }

  function RenderAll(ps: seq<Pred>): (r: seq<string>)
    ensures |r| == |ps|
  {
    if ps == [] then [] else [Render(ps[0])] + RenderAll(ps[1..])
  }

  /** Only a node that contributes no condition renders as the empty where-string. */
  lemma RenderEmpty(p: Pred)
    ensures Render(p) == [] <==> p == NoCondition
  {
    match p
    case Comparison(negated, field, comparison, param) =>
      assert Render(p)[|Render(p)| - 1] == ')';
    case NullCheck(field, comparison) =>
      assert Render(p)[0] == 'n';
    case NoCondition =>
    case Group(own, logic, children) =>
      assert Render(p)[0] == '(';
  }

  predicate ValidField(f: Filter) {
    !NullOrEmpty(f.field)
  }

  predicate ValidOperator(f: Filter) {
    !NullOrEmpty(f.operator) && Lower(f.operator.value) in Operators
  }

  /** Children are rendered only when Logic is non-null and there are children. */
  predicate Combines(f: Filter) {
    f.logic.Some? && |f.filters| > 0
  }

  /** The node's own comparison, emitted before any children; `pos` is its placeholder index. */
  function OwnPredicate(f: Filter, pos: nat): Pred
    requires ValidField(f) && ValidOperator(f)
  {
    var op := Lower(f.operator.value);
    var comparison := Operators[op];
    if !NullOrEmpty(f.value) then
      Comparison(op == "contains" || op == "doesnotcontain", f.field.value, comparison, pos)
    else if f.operator.value in NullTests then
      NullCheck(f.field.value, comparison)
    else
      NoCondition
  }

  /** Transform's checks and output for node `f` at pre-order position `pos`. */
  function Compile(f: Filter, pos: nat): Result<Pred, FilterError>
    decreases f
  {
    if NullOrEmpty(f.field) then Failure(FieldInvalid)
    else if !ValidOperator(f) then Failure(OperatorInvalid)
    else
      var own := OwnPredicate(f, pos);
      if Combines(f) then
        var logic := Lower(f.logic.value);
        if logic !in Logics then Failure(LogicInvalid)
        else
          match CompileAll(f.filters, pos + 1)
          case Failure(e) => Failure(e)
          case Success(children) => Success(Group(own, logic, children))
      else Success(own)
  }

  /** The children in order, each at the position after its predecessors' blocks; the first failure wins. */
  function CompileAll(fs: seq<Filter>, pos: nat): Result<seq<Pred>, FilterError>
    decreases fs
  {
    if fs == [] then Success([])
    else
      match Compile(fs[0], pos)
      case Failure(e) => Failure(e)
      case Success(p) =>
        match CompileAll(fs[1..], pos + Size(fs[0]))
        case Failure(e) => Failure(e)
        case Success(ps) => Success([p] + ps)
  }

  /** `Transform(filter, filters)`, where `filter` sits at position `pos` of `filters`. */
  function Transform(f: Filter, pos: nat): Result<string, FilterError> {
    match Compile(f, pos)
    case Failure(e) => Failure(e)
    case Success(p) => Success(Render(p))
  }

  // ---------------------------------------------------------------------
  // Which nodes Transform checks, and when it fails

  /** The nodes Transform examines: the node, and its children's only when it combines them. */
  function Checked(f: Filter): seq<Filter> {
    [f] + (if Combines(f) then CheckedAll(f.filters) else [])
  }

  function CheckedAll(fs: seq<Filter>): seq<Filter> {
    if fs == [] then [] else Checked(fs[0]) + CheckedAll(fs[1..])
  }

  predicate NodeOk(f: Filter) {
    ValidField(f) && ValidOperator(f) && (Combines(f) ==> Lower(f.logic.value) in Logics)
  }

  /** Transform succeeds exactly when every node it examines has a field, a
      known operator and, where it combines children, a known logic. */
  lemma {:induction false} CompileSucceedsIff(f: Filter, pos: nat)
    ensures Compile(f, pos).Success? <==> forall n :: n in Checked(f) ==> NodeOk(n)
  {
    if Combines(f) {
      CompileAllSucceedsIff(f.filters, pos + 1);
      assert Checked(f) == [f] + CheckedAll(f.filters);
      assert (forall n :: n in Checked(f) ==> NodeOk(n)) <==>
             NodeOk(f) && (forall n :: n in CheckedAll(f.filters) ==> NodeOk(n));
      if NodeOk(f) {
        assert Compile(f, pos).Success? <==> CompileAll(f.filters, pos + 1).Success?;
      }
    } else {
      assert Checked(f) == [f];
      assert Compile(f, pos).Success? <==> ValidField(f) && ValidOperator(f);
      assert NodeOk(f) <==> ValidField(f) && ValidOperator(f);
      assert (forall n :: n in Checked(f) ==> NodeOk(n)) <==> NodeOk(f);
    }
  }

  lemma {:induction false} CompileAllSucceedsIff(fs: seq<Filter>, pos: nat)
    ensures CompileAll(fs, pos).Success? <==> forall n :: n in CheckedAll(fs) ==> NodeOk(n)
  {
    if fs != [] {
      CompileSucceedsIff(fs[0], pos);
      CompileAllSucceedsIff(fs[1..], pos + Size(fs[0]));
      assert forall n :: n in CheckedAll(fs) <==> n in Checked(fs[0]) || n in CheckedAll(fs[1..]);
    }
  }

  /** The node's own checks come first: a bad field is reported before a bad operator,
      and either before anything about the children. */
  lemma RootErrorsFirst(f: Filter, pos: nat)
    ensures NullOrEmpty(f.field) ==> Transform(f, pos) == Failure(FieldInvalid)
    ensures ValidField(f) && !ValidOperator(f) ==> Transform(f, pos) == Failure(OperatorInvalid)
    ensures ValidField(f) && ValidOperator(f) && Combines(f) && Lower(f.logic.value) !in Logics
            ==> Transform(f, pos) == Failure(LogicInvalid)
    ensures ValidField(f) && ValidOperator(f) && !Combines(f)
            ==> Transform(f, pos) == Success(Render(OwnPredicate(f, pos)))
  {
  }

  // ---------------------------------------------------------------------
  // Placeholder binding

  function Comparisons(p: Pred): set<Pred> {
    match p
    case Comparison(_, _, _, _) => {p}
    case NullCheck(_, _) => {}
    case NoCondition => {}
    case Group(own, _, children) => Comparisons(own) + ComparisonsAll(children)
  }

  function ComparisonsAll(ps: seq<Pred>): set<Pred> {
    if ps == [] then {} else Comparisons(ps[0]) + ComparisonsAll(ps[1..])
  }

  /** `c` is the comparison that the node `n` at position `i` emits for itself. */
  predicate EmittedBy(c: Pred, n: Filter, i: nat) {
    ValidField(n) && ValidOperator(n) && !NullOrEmpty(n.value) && c == OwnPredicate(n, i)
  }

  /** Each comparison in `cs` carries a parameter index inside the block of
      nodes that starts at `pos` and is the one its node emits for itself. */
  predicate Binds(cs: set<Pred>, nodes: seq<Filter>, pos: nat) {
    forall c :: c in cs ==>
      c.Comparison? && pos <= c.param < pos + |nodes| &&
      EmittedBy(c, nodes[c.param - pos], c.param)
  }

  lemma BindsConcat(cs1: set<Pred>, first: seq<Filter>, cs2: set<Pred>, others: seq<Filter>, pos: nat, mid: nat)
    requires mid == pos + |first|
    requires Binds(cs1, first, pos) && Binds(cs2, others, mid)
    ensures Binds(cs1 + cs2, first + others, pos)
  {
    forall c | c in cs1 + cs2
      ensures c.Comparison? && pos <= c.param < pos + |first + others|
      ensures EmittedBy(c, (first + others)[c.param - pos], c.param)
    {
      if c in cs1 {
        assert (first + others)[c.param - pos] == first[c.param - pos];
      } else {
        assert (first + others)[c.param - pos] == others[c.param - pos - |first|];
      }
    }
  }

  /** A node's own predicate binds at most its own position. */
  lemma OwnBinds(f: Filter, pos: nat)
    requires ValidField(f) && ValidOperator(f)
    ensures Binds(Comparisons(OwnPredicate(f, pos)), [f], pos)
  {
  }

  lemma {:induction false} CompileBinds(f: Filter, pos: nat, p: Pred)
    requires Compile(f, pos) == Success(p)
    ensures |Flatten(f)| == Size(f)
    ensures Binds(Comparisons(p), Flatten(f), pos)
  {
    FlattenSize(f);
    var own := OwnPredicate(f, pos);
    OwnBinds(f, pos);
    if Combines(f) {
      var children := CompileAll(f.filters, pos + 1).value;
      FlattenAllSize(f.filters);
      CompileAllBinds(f.filters, pos + 1, children);
      BindsConcat(Comparisons(own), [f], ComparisonsAll(children), FlattenAll(f.filters), pos, pos + 1);
    } else {
      BindsConcat(Comparisons(own), [f], {}, FlattenAll(f.filters), pos, pos + 1);
    }
  }

  lemma {:induction false} CompileAllBinds(fs: seq<Filter>, pos: nat, ps: seq<Pred>)
    requires CompileAll(fs, pos) == Success(ps)
    ensures |FlattenAll(fs)| == SizeAll(fs)
    ensures Binds(ComparisonsAll(ps), FlattenAll(fs), pos)
  {
    FlattenAllSize(fs);
    if fs != [] {
      var next := CompileAllCons(fs, pos, ps);
      CompileBinds(fs[0], pos, ps[0]);
      CompileAllBinds(fs[1..], next, ps[1..]);
      FlattenSize(fs[0]);
      BindsConcat(Comparisons(ps[0]), Flatten(fs[0]), ComparisonsAll(ps[1..]), FlattenAll(fs[1..]), pos, next);
    }
  }

  /** A non-empty list compiles as its head at `pos` followed by its tail at
      `next`, the first position after the head's block. */
  lemma CompileAllCons(fs: seq<Filter>, pos: nat, ps: seq<Pred>) returns (next: nat)
    requires fs != [] && CompileAll(fs, pos) == Success(ps)
    ensures next == pos + Size(fs[0]) && ps != []
    ensures Compile(fs[0], pos) == Success(ps[0])
    ensures CompileAll(fs[1..], next) == Success(ps[1..])
    ensures ComparisonsAll(ps) == Comparisons(ps[0]) + ComparisonsAll(ps[1..])
    ensures FlattenAll(fs) == Flatten(fs[0]) + FlattenAll(fs[1..])
  {
    next := pos + Size(fs[0]);
    var rest := CompileAll(fs[1..], next).value;
    assert ([ps[0]] + rest)[1..] == rest;
  }

  /** Every `@i` in the where-string of a tree belongs to the node at position
      `i` of the pre-order listing, and `values[i]` is that node's own, non-empty Value. */
  lemma PlaceholdersBindOwnValues(root: Filter)
    requires Compile(root, 0).Success?
    ensures forall c :: c in Comparisons(Compile(root, 0).value) ==>
      c.Comparison? && c.param < |ParameterValues(Flatten(root))| &&
      EmittedBy(c, Flatten(root)[c.param], c.param) &&
      ParameterValues(Flatten(root))[c.param] == Flatten(root)[c.param].value
  {
    CompileBinds(root, 0, Compile(root, 0).value);
    FlattenSize(root);
  }

  // ---------------------------------------------------------------------
  // Filter: the where clause applied to the query

  datatype WhereClause = WhereClause(expression: string, values: seq<Option<string>>)

  /** Specification of `Filter`: no clause when the where-string is empty. */
  function WhereOf(f: Filter): Result<Option<WhereClause>, FilterError> {
    match Transform(f, 0)
    case Failure(e) => Failure(e)
    case Success(w) =>
      if w == [] then Success(None) else Success(Some(WhereClause(w, ParameterValues(Flatten(f)))))
  }

  /** The parameter array has one entry per node of the tree, in pre-order, and
      no clause is applied exactly when the root contributes nothing and combines nothing. */
  lemma WhereClauseShape(f: Filter)
    requires WhereOf(f).Success?
    ensures WhereOf(f).value.None? <==> Compile(f, 0).value == NoCondition
    ensures WhereOf(f).value.Some? ==>
      |WhereOf(f).value.value.values| == Size(f) &&
      forall i :: 0 <= i < Size(f) ==> WhereOf(f).value.value.values[i] == Flatten(f)[i].value
  {
    RenderEmpty(Compile(f, 0).value);
    FlattenSize(f);
  }

  method ApplyFilter(f: Filter) returns (r: Result<Option<WhereClause>, FilterError>)
    ensures r == WhereOf(f)
  {
    var filters := GetAllFilters(f);
    var values := ParameterValues(filters);
    var where := Transform(f, 0);
    if where.Failure? {
      return Failure(where.error);
    }
    if where.value != [] {
      r := Success(Some(WhereClause(where.value, values)));
    } else {
      r := Success(None);
    }
  }

  // ---------------------------------------------------------------------
  // Sort

  predicate ValidDir(s: Sort) {
    !NullOrEmpty(s.dir) && Lower(s.dir.value) in Orders
  }

  predicate ValidSort(s: Sort) {
    !NullOrEmpty(s.field) && ValidDir(s)
  }

  function SortViolation(s: Sort): FilterError {
    if NullOrEmpty(s.field) then FieldInvalid else DirInvalid
  }

  /** An invalid sort throws "Field is invalid" when its field is null or
      empty, and otherwise "Dir is invalid". */
  lemma SortErrorMessages(s: Sort)
    requires !ValidSort(s)
    ensures NullOrEmpty(s.field) ==> Message(SortViolation(s)) == "Field is invalid"
    ensures !NullOrEmpty(s.field) ==> Message(SortViolation(s)) == "Dir is invalid" && !ValidDir(s)
  {
  }

  /** The position of the first invalid specification, or the length when there is none. */
  function FirstInvalidSort(sorts: seq<Sort>): (k: nat)
    ensures k <= |sorts|
    ensures k < |sorts| ==> !ValidSort(sorts[k])
    ensures forall j :: 0 <= j < k ==> ValidSort(sorts[j])
  {
    if sorts == [] then 0
    else if !ValidSort(sorts[0]) then 0
    else 1 + FirstInvalidSort(sorts[1..])
  }

  /** `"Field Dir"` with the Dir text as the caller wrote it. */
  function SortKey(s: Sort): string
    requires ValidSort(s)
  {
    s.field.value + " " + s.dir.value
  }

  function SortKeys(sorts: seq<Sort>): (keys: seq<string>)
    requires forall i :: 0 <= i < |sorts| ==> ValidSort(sorts[i])
    ensures |keys| == |sorts|
  {
    seq(|sorts|, i requires 0 <= i < |sorts| && ValidSort(sorts[i]) => SortKey(sorts[i]))
  }

  /** Specification of `Sort`: validate all first, then one comma-joined order-by (none for an empty list). */
  function OrderByOf(sorts: seq<Sort>): Result<Option<string>, FilterError> {
    var k := FirstInvalidSort(sorts);
    if k < |sorts| then Failure(SortViolation(sorts[k]))
    else if sorts == [] then Success(None)
    else Success(Some(Join(",", SortKeys(sorts))))
  }

  method ApplySort(sorts: seq<Sort>) returns (r: Result<Option<string>, FilterError>)
    ensures r == OrderByOf(sorts)
  {
    for i := 0 to |sorts|
      invariant forall j :: 0 <= j < i ==> ValidSort(sorts[j])
    {
      if NullOrEmpty(sorts[i].field) {
        return Failure(FieldInvalid);
      }
      if NullOrEmpty(sorts[i].dir) || Lower(sorts[i].dir.value) !in Orders {
        return Failure(DirInvalid);
      }
    }
    if |sorts| > 0 {
      r := Success(Some(Join(",", SortKeys(sorts))));
    } else {
      r := Success(None);
    }
  }

  /** Sorting fails exactly when some specification is invalid, with the first
      one's error; otherwise the keys are ordered as listed, which splitting the
      order-by string at its commas recovers when no key holds a comma. */
  lemma OrderByKeys(sorts: seq<Sort>)
    ensures OrderByOf(sorts).Failure? <==> exists i :: 0 <= i < |sorts| && !ValidSort(sorts[i])
    ensures OrderByOf(sorts).Success? && sorts != [] &&
            (forall i :: 0 <= i < |sorts| ==> ',' !in SortKeys(sorts)[i])
            ==> Split(',', OrderByOf(sorts).value.value) == SortKeys(sorts)
  {
    if OrderByOf(sorts).Success? && sorts != [] && (forall i :: 0 <= i < |sorts| ==> ',' !in SortKeys(sorts)[i]) {
      SplitJoin(',', SortKeys(sorts));
    }
  }

  // ---------------------------------------------------------------------
  // ToDynamic

  datatype QueryPlan = QueryPlan(where: Option<WhereClause>, orderBy: Option<string>)

  /** Specification of `ToDynamic`: the filter first, then the sort when there is a non-empty list. */
  function DynamicPlan(dq: DynamicQuery): Result<QueryPlan, FilterError> {
    var where := if dq.filter.Some? then WhereOf(dq.filter.value) else Success(None);
    if where.Failure? then Failure(where.error)
    else if dq.sort.None? || dq.sort.value == [] then Success(QueryPlan(where.value, None))
    else
      match OrderByOf(dq.sort.value)
      case Failure(e) => Failure(e)
      case Success(o) => Success(QueryPlan(where.value, o))
  }

  /** A bad filter is reported before the sort is looked at; an absent or empty
      sort list orders nothing and is never validated. */
  lemma DynamicPlanOrder(dq: DynamicQuery)
    ensures dq.filter.Some? && WhereOf(dq.filter.value).Failure? ==>
      DynamicPlan(dq) == Failure(WhereOf(dq.filter.value).error)
    ensures (dq.sort.None? || dq.sort.value == []) ==>
      (DynamicPlan(dq).Success? <==> dq.filter.None? || WhereOf(dq.filter.value).Success?)
    ensures DynamicPlan(dq).Success? ==>
      (DynamicPlan(dq).value.orderBy.None? <==> dq.sort.None? || dq.sort.value == [])
  {
  }

  method ToDynamic(dq: DynamicQuery) returns (r: Result<QueryPlan, FilterError>)
    ensures r == DynamicPlan(dq)
  {
    var where: Option<WhereClause> := None;
    if dq.filter.Some? {
      var w := ApplyFilter(dq.filter.value);
      if w.Failure? {
        return Failure(w.error);
      }
      where := w.value;
    }
    var orderBy: Option<string> := None;
    if dq.sort.Some? && |dq.sort.value| > 0 {
      var s := ApplySort(dq.sort.value);
      if s.Failure? {
        return Failure(s.error);
      }
      orderBy := s.value;
    }
    r := Success(QueryPlan(where, orderBy));
  }

  // ---------------------------------------------------------------------
  // What the code emits, on concrete trees

  /** `age >= 18`, combined by "and" with the child `age < 65`: the tree, its listing and its output. */
  lemma AgeRangeExample()
    ensures Compile(Filter(Some("age"), Some("gte"), Some("18"), Some("and"),
                           [Filter(Some("age"), Some("lt"), Some("65"), None, [])]), 0)
         == Success(Group(Comparison(false, "age", ">=", 0), "and", [Comparison(false, "age", "<", 1)]))
    ensures ParameterValues(Flatten(Filter(Some("age"), Some("gte"), Some("18"), Some("and"),
                                           [Filter(Some("age"), Some("lt"), Some("65"), None, [])])))
         == [Some("18"), Some("65")]
  {
    var child := Filter(Some("age"), Some("lt"), Some("65"), None, []);
    var root := Filter(Some("age"), Some("gte"), Some("18"), Some("and"), [child]);
    AgeRangeChild(child);
    LowerKeeps("gte");
    LowerKeeps("and");
    assert "gte" in Operators && Operators["gte"] == ">=";
    assert OwnPredicate(root, 0) == Comparison(false, "age", ">=", 0);
    assert Flatten(root) == [root] + [child];
  }

  /** The child of that tree, compiled at position 1 as the only member of its list. */
  lemma AgeRangeChild(child: Filter)
    requires child == Filter(Some("age"), Some("lt"), Some("65"), None, [])
    ensures CompileAll([child], 1) == Success([Comparison(false, "age", "<", 1)])
    ensures FlattenAll([child]) == [child]
  {
    var inner := Comparison(false, "age", "<", 1);
    LowerKeeps("lt");
    assert "lt" in Operators && Operators["lt"] == "<";
    assert [child][0] == child && [child][1..] == [];
    assert Size(child) == 1;
    assert Compile(child, 1) == Success(inner);
    assert CompileAll([], 2) == Success([]);
    assert [inner] + [] == [inner];
    assert Flatten(child) == [child];
  }

  /** The rendering of that tree: the whole group is parenthesised, the children once more. */
  lemma AgeRangeRendering()
    ensures Render(Group(Comparison(false, "age", ">=", 0), "and", [Comparison(false, "age", "<", 1)]))
         == "(np(age).>=(@0) and (np(age).<(@1)))"
  {
    var w := "np(age).>=(@0)";
    var t := "np(age).<(@1)";
    RenderOneDigitComparison("age", ">=", 0, w);
    RenderOneDigitComparison("age", "<", 1, t);
    RenderOneChildGroup(Comparison(false, "age", ">=", 0), "and", Comparison(false, "age", "<", 1));
    AgeRangeText(w, t);
  }

  lemma AgeRangeText(w: string, t: string)
    requires w == "np(age).>=(@0)" && t == "np(age).<(@1)"
    ensures "(" + w + " " + "and" + " (" + t + "))" == "(np(age).>=(@0) and (np(age).<(@1)))"
  {
    var prefix := "(" + w + " " + "and" + " (";
    assert prefix == "(np(age).>=(@0) and (";
    assert prefix + t == "(np(age).>=(@0) and (np(age).<(@1)";
  }

  lemma RenderOneChildGroup(own: Pred, logic: string, child: Pred)
    ensures Render(Group(own, logic, [child])) == "(" + Render(own) + " " + logic + " (" + Render(child) + "))"
  {
    assert RenderAll([child]) == [Render(child)];
  }

  /** A comparison's placeholder is the decimal text of its parameter index,
      which reads back as that index. */
  lemma RenderComparison(negated: bool, field: string, op: string, i: nat)
    ensures var d := NatToString(i);
      Render(Comparison(negated, field, op, i)) == (if negated then "!" else "") + "np(" + field + ")." + op + "(@" + d + ")" &&
      |d| > 0 && IsDigits(d) && ParseNat(d) == i
  {
    NatToStringRoundTrip(i);
  }

  /** With a one-digit index the placeholder is that digit. */
  lemma RenderOneDigitComparison(field: string, op: string, i: nat, expected: string)
    requires i < 10
    requires expected == "np(" + field + ")." + op + "(@" + [Digit(i)] + ")"
    ensures Render(Comparison(false, field, op, i)) == expected
  {
  }

  /** `contains` is negated just like `doesnotcontain`. */
  lemma ContainsIsNegated()
    ensures Compile(Filter(Some("name"), Some("contains"), Some("x"), None, []), 0)
         == Success(Comparison(true, "name", "Contains", 0))
  {
    var f := Filter(Some("name"), Some("contains"), Some("x"), None, []);
    LowerKeeps("contains");
    ContainsOperator(Lower("contains"));
    assert OwnPredicate(f, 0) == Comparison(true, "name", "Contains", 0);
  }

  lemma ContainsOperator(op: string)
    requires op == "contains"
    ensures op in Operators && Operators[op] == "Contains"
  {
  }

  /** Without a value, only the exact lower-case null-test keywords emit a test. */
  lemma NullTestsAreCaseSensitive()
    ensures Compile(Filter(Some("name"), Some("isnull"), None, None, []), 0) == Success(NullCheck("name", "=="))
    ensures Compile(Filter(Some("name"), Some("ISNULL"), None, None, []), 0) == Success(NoCondition)
  {
    IsNullOperator("isnull");
    IsNullOperator("ISNULL");
    assert "ISNULL" !in NullTests;
  }

  /** Any spelling of `isnull` is a known operator emitting `==`. */
  lemma IsNullOperator(op: string)
    requires Lower(op) == "isnull"
    ensures Lower(op) in Operators && Operators[Lower(op)] == "=="
  {
  }

  /** A null Logic drops the children unseen, even an invalid one. */
  lemma NullLogicDropsChildren()
    ensures Compile(Filter(Some("a"), Some("eq"), Some("1"), None,
                           [Filter(Some(""), Some("bogus"), None, None, [])]), 0)
         == Success(Comparison(false, "a", "==", 0))
  {
    LowerKeeps("eq");
    assert "eq" in Operators && Operators["eq"] == "==";
  }
}
