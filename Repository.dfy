/** The generic Entity Framework repository over one entity set, and the
    parts of the DbContext it drives: the change tracker, the database and
    SaveChanges. Every `DateTime.UtcNow` of one call is the parameter `now`. */
module Repository {
  import opened Wrappers
  import opened Paging
  import opened EntityGraph
  import DynamicFilter

  /** An entity of the repository's set together with its key. */
  datatype Row = Row(id: Id, entity: Entity)

  /** The exceptions the repository throws. */
  datatype RepositoryError = OneToOneRelation | NotImplemented

  function ErrorMessage(e: RepositoryError): string {
    match e
    case OneToOneRelation => "Entity has one to one relation.Soft delete causes data loss."
    case NotImplemented => "The method or operation is not implemented."
  }

  // ---------------------------------------------------------------------
  // Sequences and key order

  /** LINQ `Where`: the elements that satisfy `p`, in order. */
  function Where<T(!new)>(s: seq<T>, p: T -> bool): (r: seq<T>)
    ensures |r| <= |s|
    ensures forall x :: x in r <==> x in s && p(x)
  {
    if s == [] then []
    else
      var rest := Where(s[1..], p);
      if p(s[0]) then [s[0]] + rest else rest
  }

  /** The position of the first element that satisfies `p`, or the length when none does. */
  function FirstIndex<T(!new)>(s: seq<T>, p: T -> bool): (k: nat)
    ensures k <= |s|
    ensures k < |s| ==> p(s[k])
    ensures forall j :: 0 <= j < k ==> !p(s[j])
  {
    if s == [] then 0
    else if p(s[0]) then 0
    else 1 + FirstIndex(s[1..], p)
  }

  /** LINQ `FirstOrDefault(p)`: the first element that satisfies `p`. */
  function FirstMatch<T(!new)>(s: seq<T>, p: T -> bool): (r: Option<T>)
    ensures r.None? <==> forall x :: x in s ==> !p(x)
    ensures r.Some? ==> exists k :: 0 <= k < |s| && s[k] == r.value && p(r.value) &&
                                    forall j :: 0 <= j < k ==> !p(s[j])
  {
    var k := FirstIndex(s, p);
    if k < |s| then Some(s[k]) else None
  }

  /** A predicate that is null leaves the query as it is. */
  function Narrow<T(!new)>(s: seq<T>, condition: Option<T -> bool>): (r: seq<T>)
    ensures forall x :: x in r <==> x in s && (condition.None? || condition.value(x))
  {
    if condition.None? then s else Where(s, condition.value)
  }

  /** An ordering that returns only rows it was given. */
  ghost predicate OnlyReorders<T(!new)>(f: seq<T> -> seq<T>) {
    forall s, x :: x in f(s) ==> x in s
  }

  /** The query after a dynamic plan: its where clause, then its order-by. */
  function Planned<T>(q: seq<T>, plan: DynamicFilter.QueryPlan,
                      evalWhere: (seq<T>, DynamicFilter.WhereClause) -> seq<T>,
                      evalOrderBy: (seq<T>, string) -> seq<T>): seq<T> {
    var filtered := if plan.where.Some? then evalWhere(q, plan.where.value) else q;
    if plan.orderBy.Some? then evalOrderBy(filtered, plan.orderBy.value) else filtered
  }

  predicate IsLeast(k: Id, s: set<Id>) {
    k in s && forall x :: x in s ==> k <= x
  }

  lemma {:induction false} LeastExists(s: set<Id>)
    requires s != {}
    ensures exists k :: IsLeast(k, s)
    decreases |s|
  {
    var y :| y in s;
    var rest := s - {y};
    if rest == {} {
      forall x | x in s
        ensures y <= x
      {
        assert x == y || x in rest;
      }
      assert IsLeast(y, s);
    } else {
      LeastExists(rest);
      var k :| IsLeast(k, rest);
      var w := if y < k then y else k;
      forall x | x in s
        ensures w <= x
      {
        if x != y {
          assert x in rest;
        }
      }
      assert IsLeast(w, s);
    }
  }

  function Least(s: set<Id>): (k: Id)
    requires s != {}
    ensures IsLeast(k, s)
  {
    LeastExists(s);
    var k :| IsLeast(k, s);
    k
  }

  /** The keys of a set in ascending order. */
  function Ascending(s: set<Id>): (r: seq<Id>)
    ensures forall k :: k in r <==> k in s
    ensures forall i, j :: 0 <= i < j < |r| ==> r[i] < r[j]
    decreases |s|
  {
    if s == {} then []
    else
      var k := Least(s);
      [k] + Ascending(s - {k})
  }

  /** The stored rows of type `clrType` at `keys`, in the order of `keys`. */
  function RowsOf(saved: Store, keys: seq<Id>, clrType: string): (r: seq<Row>)
    requires forall i, j :: 0 <= i < j < |keys| ==> keys[i] < keys[j]
    ensures forall x :: x in r <==> x.id in keys && x.id in saved && x.entity == saved[x.id] && x.entity.clrType == clrType
    ensures forall i, j :: 0 <= i < j < |r| ==> r[i].id < r[j].id
  {
    if keys == [] then []
    else
      var rest := RowsOf(saved, keys[1..], clrType);
      assert forall x :: x in rest ==> keys[0] < x.id;
      if keys[0] in saved && saved[keys[0]].clrType == clrType
      then [Row(keys[0], saved[keys[0]])] + rest
      else rest
  }

  // ---------------------------------------------------------------------
  // The one-to-one guard

  /** A foreign key of the entity's type that leaves soft delete of an entity
      of runtime type `clrType` safe: a collection on either side, or a
      navigation to the principal on a key that the runtime type itself
      declares (not a base type). */
  predicate AllowsSoftDelete(fk: ForeignKey, clrType: string) {
    (fk.dependentToPrincipal.Some? && fk.dependentToPrincipal.value.isCollection) ||
    (fk.principalToDependent.Some? && fk.principalToDependent.value.isCollection) ||
    (fk.dependentToPrincipal.Some? && fk.declaringClrType == clrType)
  }

  /** `GetForeignKeys().All(...)`. */
  function AllForeignKeysAllow(fks: seq<ForeignKey>, clrType: string): (r: bool)
    ensures r <==> forall i :: 0 <= i < |fks| ==> AllowsSoftDelete(fks[i], clrType)
  {
    if fks == [] then true
    else AllowsSoftDelete(fks[0], clrType) && AllForeignKeysAllow(fks[1..], clrType)
  }

  predicate HasOneToOneRelation(model: Model, clrType: string) {
    !AllForeignKeysAllow(TypeOf(model, clrType).foreignKeys, clrType)
  }

  /** The guard reads the foreign keys of the entity's own type, where it is
      the dependent. A `Profile` whose one-to-one key to its user has no
      `Profile.User` navigation is refused, and so is one whose key has no
      navigation at all, or an `Admin` whose key is declared by its base type
      `User`. An `Order` with a many-to-one key to its customer is accepted,
      and so is a one-to-one key with a navigation from the dependent. */
  lemma OneToOneGuardExamples()
    ensures var principalOnly := ForeignKey(None, Some(NavigationEnd(false)), "Profile");
      HasOneToOneRelation(map["Profile" := EntityType([], [principalOnly])], "Profile")
    ensures var bare := ForeignKey(None, None, "Profile");
      HasOneToOneRelation(map["Profile" := EntityType([], [bare])], "Profile")
    ensures var inherited := ForeignKey(Some(NavigationEnd(false)), Some(NavigationEnd(false)), "User");
      HasOneToOneRelation(map["Admin" := EntityType([], [inherited])], "Admin")
    ensures var manyToOne := ForeignKey(Some(NavigationEnd(false)), Some(NavigationEnd(true)), "Order");
      !HasOneToOneRelation(map["Order" := EntityType([], [manyToOne])], "Order")
    ensures var oneToOne := ForeignKey(Some(NavigationEnd(false)), Some(NavigationEnd(false)), "Profile");
      !HasOneToOneRelation(map["Profile" := EntityType([], [oneToOne])], "Profile")
  {
    var principalOnly := ForeignKey(None, Some(NavigationEnd(false)), "Profile");
    assert !AllowsSoftDelete(principalOnly, "Profile");
    var bare := ForeignKey(None, None, "Profile");
    assert !AllowsSoftDelete(bare, "Profile");
    var inherited := ForeignKey(Some(NavigationEnd(false)), Some(NavigationEnd(false)), "User");
    assert !AllowsSoftDelete(inherited, "Admin");
    var manyToOne := ForeignKey(Some(NavigationEnd(false)), Some(NavigationEnd(true)), "Order");
    assert AllowsSoftDelete(manyToOne, "Order");
    var oneToOne := ForeignKey(Some(NavigationEnd(false)), Some(NavigationEnd(false)), "Profile");
    assert AllowsSoftDelete(oneToOne, "Profile");
  }

  // ---------------------------------------------------------------------
  // Specifications of the writes

  function Created(r: Row, now: Time): Row {
    r.(entity := r.entity.(createdDate := now))
  }

  function Updated(r: Row, now: Time): Row {
    r.(entity := r.entity.(updatedDate := Some(now)))
  }

  /** The keys of some rows. */
  function Keys(rows: seq<Row>): set<Id> {
    set i | 0 <= i < |rows| :: rows[i].id
  }

  predicate DistinctKeys(rows: seq<Row>) {
    forall i, j :: 0 <= i < j < |rows| ==> rows[i].id != rows[j].id
  }

  /** The change tracker after tracking `rows` in order: their keys are added
      and every other entry is left as it was. */
  function TrackAll(m: Store, rows: seq<Row>): (r: Store)
    decreases |rows|
    ensures r.Keys == m.Keys + Keys(rows)
    ensures forall k :: k in m && k !in Keys(rows) ==> r[k] == m[k]
  {
    if rows == [] then m
    else
      var n := |rows| - 1;
      var front := rows[..n];
      var r := TrackAll(m, front);
      assert Keys(rows) == Keys(front) + {rows[n].id} by {
        assert forall i :: 0 <= i < n ==> rows[i] == front[i];
      }
      r[rows[n].id := rows[n].entity]
  }

  /** With distinct keys every row is tracked with its own values. */
  lemma {:induction false} TrackAllDistinct(m: Store, rows: seq<Row>)
    requires DistinctKeys(rows)
    ensures forall i :: 0 <= i < |rows| ==> TrackAll(m, rows)[rows[i].id] == rows[i].entity
    decreases |rows|
  {
    if rows != [] {
      var n := |rows| - 1;
      var front := rows[..n];
      TrackAllDistinct(m, front);
      assert forall i :: 0 <= i < n ==> rows[i] == front[i];
    }
  }

  /** One entity deleted: removed when permanent, else soft-deleted with its cascade. */
  ghost function DeleteOne(model: Model, saved: Store, m: Store, id: Id, permanent: bool, now: Time): Store {
    if permanent then m - {id} else SoftDeleted(model, saved, m, id, now)
  }

  /** The entities deleted one after the other, in order. */
  ghost function DeleteAll(model: Model, saved: Store, m: Store, ids: seq<Id>, permanent: bool, now: Time): Store
    decreases |ids|
  {
    if ids == [] then m
    else DeleteOne(model, saved, DeleteAll(model, saved, m, ids[..|ids| - 1], permanent, now), ids[|ids| - 1], permanent, now)
  }

  lemma DeleteAllStep(model: Model, saved: Store, m: Store, ids: seq<Id>, i: nat, permanent: bool, now: Time)
    requires i < |ids|
    ensures DeleteAll(model, saved, m, ids[..i + 1], permanent, now) ==
            DeleteOne(model, saved, DeleteAll(model, saved, m, ids[..i], permanent, now), ids[i], permanent, now)
  {
    assert ids[..i + 1][..i] == ids[..i];
  }

  lemma MarksKeepsType(m0: Store, m1: Store, k: Id, now: Time)
    requires Marks(m0, m1, now) && k in m0
    ensures k in m1 && m1[k].clrType == m0[k].clrType
  {
  }

  /** The position of the first entity whose soft delete the one-to-one guard refuses, or the length. */
  function FirstRefused(model: Model, m: Store, ids: seq<Id>): (k: nat)
    requires forall i :: 0 <= i < |ids| ==> ids[i] in m
    ensures k <= |ids|
    ensures k < |ids| ==> HasOneToOneRelation(model, m[ids[k]].clrType)
    ensures forall j :: 0 <= j < k ==> !HasOneToOneRelation(model, m[ids[j]].clrType)
  {
    if ids == [] then 0
    else if HasOneToOneRelation(model, m[ids[0]].clrType) then 0
    else 1 + FirstRefused(model, m, ids[1..])
  }

  // ---------------------------------------------------------------------
  // Maintaining the traversal's invariant

  lemma VisitedIsSuccessor(model: Model, saved: Store, g: Store, id: Id, e: Entity, i: nat, t: Id)
    requires id in g && g[id].clrType == e.clrType && g[id].links == e.links
    requires i < |TypeOf(model, e.clrType).navigations|
    requires Followed(TypeOf(model, e.clrType).navigations[i])
    requires t in Visits(saved, TypeOf(model, e.clrType).navigations[i], LinkAt(e.links, i))
    ensures t in Succ(model, saved, g, id)
  {
  }

  /** After one child's recursive call the marked set is still closed away from
      the root and still reachable from it. */
  lemma ChildVisited(model: Model, saved: Store, g: Store, l0: set<Id>, id: Id, lb: set<Id>, la: set<Id>, t: Id)
    requires id in l0 && id in g && t in Succ(model, saved, g, id)
    requires la <= lb <= l0 - {id}
    requires Closed(model, saved, g, l0 - {id}, lb) && Sound(model, saved, g, l0, lb, id)
    requires Closed(model, saved, g, lb, la) && Sound(model, saved, g, lb, la, t)
    ensures Closed(model, saved, g, l0 - {id}, la) && Sound(model, saved, g, l0, la, id)
  {
    forall y | y in l0 && y !in la
      ensures Reaches(model, saved, g, l0, id, y)
    {
      if y in lb {
        ReachesWider(model, saved, g, lb, l0, t, y);
        ReachesPrepend(model, saved, g, l0, id, t, y);
      }
    }
  }

  lemma FewerLive(l: set<Id>, l0: set<Id>, id: Id)
    requires id in l0 && l <= l0 - {id}
    ensures |l| < |l0|
  {
    SubsetCard(l, l0 - {id});
  }

  /** The traversal of the entity `id`, stamped in `m0`, has reached `cur`:
      only marks were made, all reachable from `id`, and every entity marked
      besides `id` has had its own successors marked. */
  ghost predicate Traversal(model: Model, saved: Store, g: Store, m0: Store, id: Id, cur: Store, now: Time) {
    SameShape(g, m0) && id in m0 && m0[id].deletedDate.None? &&
    Marks(m0, cur, now) && SameShape(g, cur) &&
    Live(cur) <= Live(m0) - {id} &&
    Closed(model, saved, g, Live(m0) - {id}, Live(cur)) &&
    Sound(model, saved, g, Live(m0), Live(cur), id)
  }

  /** The traversal's invariant after the recursive call on the related entity
      `t`, reached from the entity `id` through its navigation `i`. */
  lemma ChildStep(model: Model, saved: Store, g: Store, m0: Store, id: Id, e: Entity, i: nat, t: Id,
                  before: Store, after: Store, now: Time)
    requires Traversal(model, saved, g, m0, id, before, now) && m0[id] == e
    requires i < |TypeOf(model, e.clrType).navigations|
    requires Followed(TypeOf(model, e.clrType).navigations[i])
    requires t in Visits(saved, TypeOf(model, e.clrType).navigations[i], LinkAt(e.links, i))
    requires Marks(before, after, now) && t !in Live(after)
    requires Closed(model, saved, g, Live(before), Live(after))
    requires Sound(model, saved, g, Live(before), Live(after), t)
    ensures Traversal(model, saved, g, m0, id, after, now)
    ensures Live(after) <= Live(before)
  {
    MarksTransitive(m0, before, after, now);
    MarksShrinksLive(g, before, after, now);
    VisitedIsSuccessor(model, saved, g, id, e, i, t);
    ChildVisited(model, saved, g, Live(m0), id, Live(before), Live(after), t);
  }

  lemma TraversalStarts(model: Model, saved: Store, g: Store, m0: Store, id: Id, cur: Store, now: Time)
    requires SameShape(g, m0) && id in m0 && m0[id].deletedDate.None?
    requires cur == m0[id := m0[id].(deletedDate := Some(now))]
    ensures Traversal(model, saved, g, m0, id, cur, now)
  {
    assert Live(cur) == Live(m0) - {id};
    assert Marks(m0, cur, now);
    assert SameShape(g, cur);
    ReachesSelf(model, saved, g, Live(m0), id);
  }

  /** Once every successor of the root is no longer live, the traversal is
      closed over everything it marked. */
  lemma TraversalEnds(model: Model, saved: Store, g: Store, m0: Store, id: Id, cur: Store, now: Time)
    requires Traversal(model, saved, g, m0, id, cur, now)
    requires forall t :: t in Successors(model, saved, m0[id].clrType, m0[id].links) ==> t !in Live(cur)
    ensures Marks(m0, cur, now) && id !in Live(cur)
    ensures Closed(model, saved, g, Live(m0), Live(cur)) && Sound(model, saved, g, Live(m0), Live(cur), id)
  {
    RootVisited(model, saved, g, Live(m0), id, Live(cur));
  }

  lemma RootVisited(model: Model, saved: Store, g: Store, l0: set<Id>, id: Id, l: set<Id>)
    requires id in g && Closed(model, saved, g, l0 - {id}, l)
    requires forall t :: t in Succ(model, saved, g, id) ==> t !in l
    ensures Closed(model, saved, g, l0, l)
  {
  }

  /** No entity visited through the first `n` followed navigations is live in `l`. */
  ghost predicate Covered(saved: Store, navs: seq<Navigation>, links: seq<Link>, n: nat, l: set<Id>)
    requires n <= |navs|
  {
    forall j :: 0 <= j < n && Followed(navs[j]) ==>
      forall t :: t in Visits(saved, navs[j], LinkAt(links, j)) ==> t !in l
  }

  lemma CoveredStep(saved: Store, navs: seq<Navigation>, links: seq<Link>, i: nat, l0: set<Id>, l1: set<Id>)
    requires i < |navs| && Covered(saved, navs, links, i, l0) && l1 <= l0
    requires Followed(navs[i]) ==> forall t :: t in Visits(saved, navs[i], LinkAt(links, i)) ==> t !in l1
    ensures Covered(saved, navs, links, i + 1, l1)
  {
  }

  lemma SuccessorsCovered(model: Model, saved: Store, e: Entity, l: set<Id>)
    requires var navs := TypeOf(model, e.clrType).navigations;
      Covered(saved, navs, e.links, |navs|, l)
    ensures forall t :: t in Successors(model, saved, e.clrType, e.links) ==> t !in l
  {
  }

  /** One more target of a collection is no longer live, and the live set only shrank. */
  lemma TargetsGone(targets: seq<Id>, j: nat, l0: set<Id>, l1: set<Id>)
    requires j < |targets| && l1 <= l0 && targets[j] !in l1
    requires forall k :: 0 <= k < j ==> targets[k] !in l0
    ensures forall k :: 0 <= k < j + 1 ==> targets[k] !in l1
  {
  }

  // ---------------------------------------------------------------------
  // The DbContext

  /** The change tracker (`entities`), the database (`saved`), and the number
      of SaveChanges calls. `queryFilter` is the model's global query filter
      on the set, which IgnoreQueryFilters lifts. */
  class DbContext {
    const model: Model
    const queryFilter: Entity -> bool
    var entities: Store
    var saved: Store
    var saves: nat

    constructor(model: Model, queryFilter: Entity -> bool, database: Store)
      ensures this.model == model && this.queryFilter == queryFilter
      ensures entities == database && saved == database && saves == 0
    {
      this.model := model;
      this.queryFilter := queryFilter;
      entities := database;
      saved := database;
      saves := 0;
    }

    /** `Add` and `Update`: the entity is tracked with its current values. */
    method Track(r: Row)
      modifies this
      ensures entities == old(entities)[r.id := r.entity]
      ensures saved == old(saved) && saves == old(saves)
    {
      entities := entities[r.id := r.entity];
    }

    /** `AddRange` and `UpdateRange`. */
    method TrackRange(rows: seq<Row>)
      modifies this
      ensures entities == TrackAll(old(entities), rows)
      ensures saved == old(saved) && saves == old(saves)
    {
      entities := TrackAll(entities, rows);
    }

    method Remove(id: Id)
      modifies this
      ensures entities == old(entities) - {id}
      ensures saved == old(saved) && saves == old(saves)
    {
      entities := entities - {id};
    }

    /** Writes every tracked change to the database. */
    method SaveChanges()
      modifies this
      ensures saved == entities && entities == old(entities)
      ensures saves == old(saves) + 1
    {
      saved := entities;
      saves := saves + 1;
    }
  }

  /** The synchronous counterparts of the repository's operations. */
  datatype SyncOperation = Get | GetList | GetListByDynamic | Any | Add | AddRange | Update | UpdateRange | Delete | DeleteRange

  // ---------------------------------------------------------------------
  // The repository

  class EfRepositoryBase {
    const dbContext: DbContext
    /** The CLR type of the repository's entities. */
    const entityType: string

    constructor(dbContext: DbContext, entityType: string)
      ensures this.dbContext == dbContext && this.entityType == entityType
    {
      this.dbContext := dbContext;
      this.entityType := entityType;
    }

    // -------------------------------------------------------------------
    // Reads

    /** `Query()`: the set's rows as stored in the database, in key order. */
    function Query(): (q: seq<Row>)
      reads dbContext
      ensures forall x :: x in q <==> x.id in dbContext.saved && x.entity == dbContext.saved[x.id] && x.entity.clrType == entityType
      ensures forall i, j :: 0 <= i < j < |q| ==> q[i].id < q[j].id
    {
      RowsOf(dbContext.saved, Ascending(dbContext.saved.Keys), entityType)
    }

    /** The query after `IgnoreQueryFilters` when `withDeleted`, else under the global filter. */
    function Scope(withDeleted: bool): (q: seq<Row>)
      reads dbContext
      ensures forall x :: x in q <==> x in Query() && (withDeleted || dbContext.queryFilter(x.entity))
    {
      if withDeleted then Query() else Where(Query(), (x: Row) => dbContext.queryFilter(x.entity))
    }

    /** `GetAsync`: the first row in scope that satisfies the predicate, or null. */
    function GetAsync(condition: Row -> bool, withDeleted: bool): (r: Option<Row>)
      reads dbContext
      ensures r.Some? ==> r.value in Scope(withDeleted) && condition(r.value)
      ensures r.None? <==> forall x :: x in Scope(withDeleted) ==> !condition(x)
    {
      FirstMatch(Scope(withDeleted), condition)
    }

    /** `AnyAsync`. */
    function AnyAsync(condition: Option<Row -> bool>, withDeleted: bool): (r: bool)
      reads dbContext
      ensures r <==> exists x :: x in Scope(withDeleted) && (condition.None? || condition.value(x))
    {
      var q := Narrow(Scope(withDeleted), condition);
      assert |q| > 0 ==> q[0] in q;
      |q| > 0
    }

    /** `GetListAsync`: filter, then the caller's ordering, then one page. */
    function GetListAsync(condition: Option<Row -> bool>, orderBy: Option<seq<Row> -> seq<Row>>,
                          index: Int32, size: Int32, withDeleted: bool): (p: Paginate<Row>)
      requires size > 0
      reads dbContext
      ensures p.index == index && p.size == size && |p.items| <= size
      ensures orderBy.None? ==> p.totalCount == |Narrow(Scope(withDeleted), condition)|
      ensures (orderBy.None? || OnlyReorders(orderBy.value)) ==>
        forall x :: x in p.items ==> x in Scope(withDeleted) && (condition.None? || condition.value(x))
    {
      var q := Narrow(Scope(withDeleted), condition);
      if orderBy.Some? then PaginateQuery(orderBy.value(q), index, size) else PaginateQuery(q, index, size)
    }

    /** Once a soft delete has been saved, a read that keeps the global query
        filter sees none of the cascade, when that filter hides every entity
        with a DeletedDate. */
    lemma SoftDeletedRowsHidden(saved0: Store, m0: Store, id: Id, now: Time)
      requires forall e: Entity :: e.deletedDate.Some? ==> !dbContext.queryFilter(e)
      requires dbContext.saved == SoftDeleted(dbContext.model, saved0, m0, id, now)
      ensures forall x :: x in Scope(false) ==> x.id !in CascadeSet(dbContext.model, saved0, m0, id)
      ensures forall c :: GetAsync(c, false).Some? ==> GetAsync(c, false).value.id !in CascadeSet(dbContext.model, saved0, m0, id)
    {
      SoftDeleteEffect(dbContext.model, saved0, m0, id, now);
      CascadeSetLive(dbContext.model, saved0, m0, id);
    }

    /** `GetListByDynamicAsync`: the dynamic filter and sort on the scoped
        query, then the caller's predicate, then one page. The text filter and
        order-by are evaluated by `evalWhere` and `evalOrderBy`. */
    method GetListByDynamicAsync(dynamic: DynamicFilter.DynamicQuery, condition: Option<Row -> bool>,
                                 index: Int32, size: Int32, withDeleted: bool,
                                 evalWhere: (seq<Row>, DynamicFilter.WhereClause) -> seq<Row>,
                                 evalOrderBy: (seq<Row>, string) -> seq<Row>)
      returns (r: Result<Paginate<Row>, DynamicFilter.FilterError>)
      requires size > 0
      ensures r.Failure? <==> DynamicFilter.DynamicPlan(dynamic).Failure?
      ensures r.Failure? ==> r.error == DynamicFilter.DynamicPlan(dynamic).error
      ensures r.Success? ==> r.value == PaginateQuery(
        Narrow(Planned(Scope(withDeleted), DynamicFilter.DynamicPlan(dynamic).value, evalWhere, evalOrderBy), condition),
        index, size)
      ensures r.Success? && condition.Some? ==> forall x :: x in r.value.items ==> condition.value(x)
    {
      var plan := DynamicFilter.ToDynamic(dynamic);
      if plan.Failure? {
        return Failure(plan.error);
      }
      var q := Planned(Scope(withDeleted), plan.value, evalWhere, evalOrderBy);
      if condition.Some? {
        q := Where(q, condition.value);
      }
      r := Success(PaginateQuery(q, index, size));
    }

    // -------------------------------------------------------------------
    // Writes

    method AddAsync(entity: Row, now: Time) returns (r: Row)
      modifies dbContext
      ensures r == Created(entity, now)
      ensures dbContext.entities == old(dbContext.entities)[r.id := r.entity]
      ensures dbContext.saved == dbContext.entities && dbContext.saves == old(dbContext.saves) + 1
    {
      r := Created(entity, now);
      dbContext.Track(r);
      dbContext.SaveChanges();
    }

    method AddRangeAsync(entities: seq<Row>, now: Time) returns (r: seq<Row>)
      modifies dbContext
      ensures |r| == |entities| && forall i :: 0 <= i < |r| ==> r[i] == Created(entities[i], now)
      ensures dbContext.entities == TrackAll(old(dbContext.entities), r)
      ensures dbContext.saved == dbContext.entities && dbContext.saves == old(dbContext.saves) + 1
    {
      r := [];
      for i := 0 to |entities|
        invariant |r| == i && forall k :: 0 <= k < i ==> r[k] == Created(entities[k], now)
      {
        r := r + [Created(entities[i], now)];
      }
      dbContext.TrackRange(r);
      dbContext.SaveChanges();
    }

    method UpdateAsync(entity: Row, now: Time) returns (r: Row)
      modifies dbContext
      ensures r == Updated(entity, now)
      ensures dbContext.entities == old(dbContext.entities)[r.id := r.entity]
      ensures dbContext.saved == dbContext.entities && dbContext.saves == old(dbContext.saves) + 1
    {
      r := Updated(entity, now);
      dbContext.Track(r);
      dbContext.SaveChanges();
    }

    method UpdateRangeAsync(entities: seq<Row>, now: Time) returns (r: seq<Row>)
      modifies dbContext
      ensures |r| == |entities| && forall i :: 0 <= i < |r| ==> r[i] == Updated(entities[i], now)
      ensures dbContext.entities == TrackAll(old(dbContext.entities), r)
      ensures dbContext.saved == dbContext.entities && dbContext.saves == old(dbContext.saves) + 1
    {
      r := [];
      for i := 0 to |entities|
        invariant |r| == i && forall k :: 0 <= k < i ==> r[k] == Updated(entities[k], now)
      {
        r := r + [Updated(entities[i], now)];
      }
      dbContext.TrackRange(r);
      dbContext.SaveChanges();
    }

    /** `DeleteAsync`: delete, then save once. A refused soft delete throws
        before anything is saved. */
    method DeleteAsync(id: Id, permanent: bool, now: Time) returns (r: Result<Row, RepositoryError>)
      requires id in dbContext.entities
      modifies dbContext
      ensures r.Failure? <==> !permanent && HasOneToOneRelation(dbContext.model, old(dbContext.entities)[id].clrType)
      ensures r.Failure? ==> r.error == OneToOneRelation && dbContext.entities == old(dbContext.entities) &&
                             dbContext.saved == old(dbContext.saved) && dbContext.saves == old(dbContext.saves)
      ensures r.Success? ==>
        dbContext.entities == DeleteOne(dbContext.model, old(dbContext.saved), old(dbContext.entities), id, permanent, now) &&
        dbContext.saved == dbContext.entities && dbContext.saves == old(dbContext.saves) + 1
      ensures r.Success? && permanent ==> r.value == Row(id, old(dbContext.entities)[id])
      ensures r.Success? && !permanent ==> r.value == Row(id, dbContext.entities[id])
    {
      ghost var m0 := dbContext.entities;
      var before := dbContext.entities[id];
      var err := SetEntityAsDeletedAsync(id, permanent, now);
      if err.Some? {
        return Failure(err.value);
      }
      if permanent {
        r := Success(Row(id, before));
      } else {
        r := Success(Row(id, dbContext.entities[id]));
      }
      dbContext.SaveChanges();
    }

    /** `DeleteRangeAsync`: delete each in order, then save once. A refused
        soft delete stops the loop; the marks already made stay in memory and
        nothing is saved. */
    method DeleteRangeAsync(ids: seq<Id>, permanent: bool, now: Time) returns (r: Result<seq<Row>, RepositoryError>)
      requires forall i :: 0 <= i < |ids| ==> ids[i] in dbContext.entities
      modifies dbContext
      ensures var k := FirstRefused(dbContext.model, old(dbContext.entities), ids);
        r.Failure? <==> !permanent && k < |ids|
      ensures var k := FirstRefused(dbContext.model, old(dbContext.entities), ids);
        r.Failure? ==>
          r.error == OneToOneRelation && dbContext.saved == old(dbContext.saved) && dbContext.saves == old(dbContext.saves) &&
          dbContext.entities == DeleteAll(dbContext.model, old(dbContext.saved), old(dbContext.entities), ids[..k], false, now)
      ensures r.Success? ==>
        dbContext.entities == DeleteAll(dbContext.model, old(dbContext.saved), old(dbContext.entities), ids, permanent, now) &&
        dbContext.saved == dbContext.entities && dbContext.saves == old(dbContext.saves) + 1
      ensures r.Success? ==>
        |r.value| == |ids| &&
        forall i :: 0 <= i < |ids| ==>
          r.value[i].id == ids[i] && ids[i] in old(dbContext.entities) &&
          (permanent ==> r.value[i].entity == old(dbContext.entities)[ids[i]]) &&
          (!permanent ==> ids[i] in dbContext.entities && r.value[i].entity == dbContext.entities[ids[i]])
    {
      var m0 := dbContext.entities;
      var model, saved := dbContext.model, dbContext.saved;
      for i := 0 to |ids|
        invariant dbContext.saved == saved && dbContext.saves == old(dbContext.saves)
        invariant dbContext.entities == DeleteAll(model, saved, m0, ids[..i], permanent, now)
        invariant !permanent ==> Marks(m0, dbContext.entities, now)
        invariant !permanent ==> i <= FirstRefused(model, m0, ids)
      {
        ghost var before := dbContext.entities;
        if !permanent {
          MarksKeepsType(m0, before, ids[i], now);
        }
        var err := SetEntityAsDeletedAsync(ids[i], permanent, now);
        if err.Some? {
          assert FirstRefused(model, m0, ids) == i;
          return Failure(err.value);
        }
        DeleteAllStep(model, saved, m0, ids, i, permanent, now);
        if !permanent {
          assert FirstRefused(model, m0, ids) != i;
          MarksTransitive(m0, before, dbContext.entities, now);
        }
      }
      assert ids[..|ids|] == ids;
      var current := dbContext.entities;
      r := Success(seq(|ids|, i requires 0 <= i < |ids| =>
        Row(ids[i], if permanent || ids[i] !in current then m0[ids[i]] else current[ids[i]])));
      dbContext.SaveChanges();
    }

    /** `SetEntityAsDeletedAsync` for one entity: the one-to-one guard and the
        soft delete, or removal from the context. Nothing is saved. */
    method SetEntityAsDeletedAsync(id: Id, permanent: bool, now: Time) returns (err: Option<RepositoryError>)
      requires permanent || id in dbContext.entities
      modifies dbContext
      ensures dbContext.saved == old(dbContext.saved) && dbContext.saves == old(dbContext.saves)
      ensures err.Some? <==> !permanent && HasOneToOneRelation(dbContext.model, old(dbContext.entities)[id].clrType)
      ensures err.Some? ==> err.value == OneToOneRelation && dbContext.entities == old(dbContext.entities)
      ensures err.None? ==> dbContext.entities == DeleteOne(dbContext.model, dbContext.saved, old(dbContext.entities), id, permanent, now)
      ensures !permanent ==> Marks(old(dbContext.entities), dbContext.entities, now)
    {
      if !permanent {
        if HasOneToOneRelation(dbContext.model, dbContext.entities[id].clrType) {
          return Some(OneToOneRelation);
        }
        ghost var m0 := dbContext.entities;
        SetEntityAsSoftDeletedAsync(id, now, m0);
        MarksExact(m0, dbContext.entities, now);
        TraversalMarksCascadeSet(dbContext.model, dbContext.saved, m0, Live(dbContext.entities), id);
      } else {
        dbContext.Remove(id);
      }
      err := None;
    }

    /** `SetEntityAsSoftDeletedAsync`: stamp DeletedDate, then recurse through
        every cascading navigation to a non-owned type. An entity already
        deleted is skipped, which is also what ends the recursion. `g` is the
        entity graph at the start of the whole traversal. */
    method SetEntityAsSoftDeletedAsync(id: Id, now: Time, ghost g: Store)
      requires SameShape(g, dbContext.entities)
      modifies dbContext
      decreases |Live(dbContext.entities)|, 3
      ensures dbContext.saved == old(dbContext.saved) && dbContext.saves == old(dbContext.saves)
      ensures Marks(old(dbContext.entities), dbContext.entities, now)
      ensures id !in Live(dbContext.entities)
      ensures Closed(dbContext.model, dbContext.saved, g, Live(old(dbContext.entities)), Live(dbContext.entities))
      ensures Sound(dbContext.model, dbContext.saved, g, Live(old(dbContext.entities)), Live(dbContext.entities), id)
    {
      if id !in dbContext.entities {
        return;
      }
      var entity := dbContext.entities[id];
      if entity.deletedDate.Some? {
        return;
      }
      ghost var m0 := dbContext.entities;
      dbContext.entities := dbContext.entities[id := entity.(deletedDate := Some(now))];
      TraversalStarts(dbContext.model, dbContext.saved, g, m0, id, dbContext.entities, now);
      SoftDeleteNavigations(id, entity, now, g, m0, |Live(m0)|);
      TraversalEnds(dbContext.model, dbContext.saved, g, m0, id, dbContext.entities, now);
      // `_dbContext.Update(entity)`: the entity is already tracked with its new DeletedDate.
    }

    /** The loop over the entity's navigations: those that cascade on delete,
        to a non-owned type, through a property. */
    method SoftDeleteNavigations(id: Id, entity: Entity, now: Time, ghost g: Store, ghost m0: Store, ghost bound: nat)
      requires bound == |Live(m0)| && id in m0 && m0[id] == entity
      requires Traversal(dbContext.model, dbContext.saved, g, m0, id, dbContext.entities, now)
      modifies dbContext
      decreases bound, 2
      ensures dbContext.saved == old(dbContext.saved) && dbContext.saves == old(dbContext.saves)
      ensures Traversal(dbContext.model, dbContext.saved, g, m0, id, dbContext.entities, now)
      ensures forall t :: t in Successors(dbContext.model, dbContext.saved, entity.clrType, entity.links) ==>
        t !in Live(dbContext.entities)
    {
      var model, saved := dbContext.model, dbContext.saved;
      var navigations := TypeOf(model, entity.clrType).navigations;
      for i := 0 to |navigations|
        invariant dbContext.saved == saved && dbContext.saves == old(dbContext.saves)
        invariant Traversal(model, saved, g, m0, id, dbContext.entities, now)
        invariant Covered(saved, navigations, entity.links, i, Live(dbContext.entities))
      {
        var navigation := navigations[i];
        ghost var start := dbContext.entities;
        if !CascadesOnDelete(navigation) || navigation.targetOwned || !navigation.hasPropertyInfo {
          CoveredStep(saved, navigations, entity.links, i, Live(start), Live(start));
          continue;
        }
        SoftDeleteNavigation(id, entity, i, now, g, m0, bound);
        CoveredStep(saved, navigations, entity.links, i, Live(start), Live(dbContext.entities));
      }
      SuccessorsCovered(model, saved, entity, Live(dbContext.entities));
    }

    /** One followed navigation: its value in memory, else the loaded rows that
        are not deleted; every entity of a collection, the first of a reference. */
    method SoftDeleteNavigation(id: Id, entity: Entity, i: nat, now: Time, ghost g: Store, ghost m0: Store, ghost bound: nat)
      requires bound == |Live(m0)| && id in m0 && m0[id] == entity
      requires Traversal(dbContext.model, dbContext.saved, g, m0, id, dbContext.entities, now)
      requires i < |TypeOf(dbContext.model, entity.clrType).navigations|
      requires Followed(TypeOf(dbContext.model, entity.clrType).navigations[i])
      modifies dbContext
      decreases bound, 1
      ensures dbContext.saved == old(dbContext.saved) && dbContext.saves == old(dbContext.saves)
      ensures Traversal(dbContext.model, dbContext.saved, g, m0, id, dbContext.entities, now)
      ensures Live(dbContext.entities) <= Live(old(dbContext.entities))
      ensures forall t :: t in Visits(dbContext.saved, TypeOf(dbContext.model, entity.clrType).navigations[i], LinkAt(entity.links, i)) ==>
        t !in Live(dbContext.entities)
    {
      var model, saved := dbContext.model, dbContext.saved;
      var navigation := TypeOf(model, entity.clrType).navigations[i];
      var link := LinkAt(entity.links, i);
      var value: seq<Id>;
      if InMemory(navigation, link) {
        value := link.targets;
      } else {
        value := LoadRelated(saved, link.targets);
      }
      if navigation.isCollection {
        SoftDeleteEach(value, now, g, m0, id, entity, i, bound);
      } else if value != [] {
        ghost var before := dbContext.entities;
        FewerLive(Live(before), Live(m0), id);
        SetEntityAsSoftDeletedAsync(value[0], now, g);
        ChildStep(model, saved, g, m0, id, entity, i, value[0], before, dbContext.entities, now);
      }
    }

    /** The `foreach` over a collection navigation's value: the traversal of
        each related entity in turn. `bound` is the live count before the
        entity that owns the navigation was stamped. */
    method SoftDeleteEach(targets: seq<Id>, now: Time, ghost g: Store, ghost m0: Store, ghost id: Id,
                          ghost entity: Entity, ghost i: nat, ghost bound: nat)
      requires bound == |Live(m0)| && id in m0 && m0[id] == entity
      requires Traversal(dbContext.model, dbContext.saved, g, m0, id, dbContext.entities, now)
      requires i < |TypeOf(dbContext.model, entity.clrType).navigations|
      requires Followed(TypeOf(dbContext.model, entity.clrType).navigations[i])
      requires forall t :: t in targets ==>
        t in Visits(dbContext.saved, TypeOf(dbContext.model, entity.clrType).navigations[i], LinkAt(entity.links, i))
      modifies dbContext
      decreases bound, 0
      ensures dbContext.saved == old(dbContext.saved) && dbContext.saves == old(dbContext.saves)
      ensures Traversal(dbContext.model, dbContext.saved, g, m0, id, dbContext.entities, now)
      ensures Live(dbContext.entities) <= Live(old(dbContext.entities))
      ensures forall t :: t in targets ==> t !in Live(dbContext.entities)
    {
      var model, saved := dbContext.model, dbContext.saved;
      for j := 0 to |targets|
        invariant dbContext.saved == saved && dbContext.saves == old(dbContext.saves)
        invariant Traversal(model, saved, g, m0, id, dbContext.entities, now)
        invariant Live(dbContext.entities) <= Live(old(dbContext.entities))
        invariant forall k :: 0 <= k < j ==> targets[k] !in Live(dbContext.entities)
      {
        ghost var before := dbContext.entities;
        FewerLive(Live(before), Live(m0), id);
        SetEntityAsSoftDeletedAsync(targets[j], now, g);
        ChildStep(model, saved, g, m0, id, entity, i, targets[j], before, dbContext.entities, now);
        TargetsGone(targets, j, Live(before), Live(dbContext.entities));
      }
    }

    // -------------------------------------------------------------------
    // Synchronous operations

    /** Every synchronous operation throws `NotImplementedException` and touches nothing. */
    method Synchronous(op: SyncOperation) returns (r: Result<(), RepositoryError>)
      ensures r.Failure? && r.error == NotImplemented
      ensures ErrorMessage(r.error) == "The method or operation is not implemented."
    {
      r := Failure(NotImplemented);
    }
  }
}
