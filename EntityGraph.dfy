/** Entities, the navigation metadata the repository reads, and what a
    cascading soft delete reaches. The metadata is a descriptor table per
    entity type in place of runtime reflection over the model. */
module EntityGraph {
  import opened Wrappers

  type Id = nat

  /** A point in time (ticks); the caller's clock reading is passed in. */
  type Time = int

  datatype DeleteBehavior = ClientSetNull | Restrict | SetNull | Cascade | ClientCascade | NoAction | ClientNoAction

  /** A navigation as the model describes it. `hasPropertyInfo` is false for
      a shadow navigation with no CLR property to read. */
  datatype Navigation = Navigation(
    name: string,
    isCollection: bool,
    isOnDependent: bool,
    deleteBehavior: DeleteBehavior,
    targetOwned: bool,
    hasPropertyInfo: bool)

  /** A navigation seen from a foreign key; only its cardinality matters here. */
  datatype NavigationEnd = NavigationEnd(isCollection: bool)

  /** A foreign key of an entity type: the navigations on either side, if
      declared, and the CLR type that declares the key. */
  datatype ForeignKey = ForeignKey(
    dependentToPrincipal: Option<NavigationEnd>,
    principalToDependent: Option<NavigationEnd>,
    declaringClrType: string)

  datatype EntityType = EntityType(navigations: seq<Navigation>, foreignKeys: seq<ForeignKey>)

  /** The model: entity type metadata by CLR type name. */
  type Model = map<string, EntityType>

  /** The value of one navigation on an entity: whether the property holds a
      value in memory, and the related rows. A collection in memory may be
      empty; a reference in memory holds one row, and `Link(true, [])` on a
      reference is read as a null property, like `Link(false, ...)`. */
  datatype Link = Link(loaded: bool, targets: seq<Id>)

  /** An entity with its timestamps (IEntityTimeStamps); `links` lines up
      with its type's navigations. */
  datatype Entity = Entity(
    clrType: string,
    createdDate: Time,
    updatedDate: Option<Time>,
    deletedDate: Option<Time>,
    links: seq<Link>,
    data: string)

  type Store = map<Id, Entity>

  function TypeOf(model: Model, clrType: string): EntityType {
    if clrType in model then model[clrType] else EntityType([], [])
  }

  // ---------------------------------------------------------------------
  // Which navigations soft delete follows, and to where

  /** The navigation filter: on the principal side, with a cascading delete behaviour. */
  predicate CascadesOnDelete(n: Navigation) {
    !n.isOnDependent && (n.deleteBehavior == Cascade || n.deleteBehavior == ClientCascade)
  }

  /** Cascading, to a non-owned type, through a navigation with a property. */
  predicate Followed(n: Navigation) {
    CascadesOnDelete(n) && !n.targetOwned && n.hasPropertyInfo
  }

  function LinkAt(links: seq<Link>, i: nat): Link {
    if i < |links| then links[i] else Link(false, [])
  }

  /** The relation loader's query: related rows whose stored DeletedDate is null, in order. */
  function LoadRelated(saved: Store, ids: seq<Id>): (r: seq<Id>)
    ensures forall t :: t in r <==> t in ids && t in saved && saved[t].deletedDate.None?
  {
    if ids == [] then []
    else
      var rest := LoadRelated(saved, ids[1..]);
      if ids[0] in saved && saved[ids[0]].deletedDate.None? then [ids[0]] + rest else rest
  }

  /** A navigation whose property is not null: a collection held in memory,
      or a reference held in memory to an entity. */
  predicate InMemory(n: Navigation, l: Link) {
    l.loaded && (n.isCollection || l.targets != [])
  }

  /** What soft delete recurses into through one navigation: the value in
      memory, else the loaded rows; all of a collection, the first of a reference. */
  function Visits(saved: Store, n: Navigation, l: Link): seq<Id> {
    var value := if InMemory(n, l) then l.targets else LoadRelated(saved, l.targets);
    if n.isCollection then value else if value == [] then [] else [value[0]]
  }

  function Successors(model: Model, saved: Store, clrType: string, links: seq<Link>): set<Id> {
    var navs := TypeOf(model, clrType).navigations;
    set i, t | 0 <= i < |navs| && Followed(navs[i]) && t in Visits(saved, navs[i], LinkAt(links, i)) :: t
  }

  function Succ(model: Model, saved: Store, g: Store, y: Id): set<Id>
    requires y in g
  {
    Successors(model, saved, g[y].clrType, g[y].links)
  }

  /** The entities whose DeletedDate is still null. */
  function Live(m: Store): set<Id> {
    set k | k in m && m[k].deletedDate.None?
  }

  // ---------------------------------------------------------------------
  // Reachability through live entities

  ghost predicate IsPath(model: Model, saved: Store, g: Store, live: set<Id>, p: seq<Id>) {
    |p| > 0 &&
    (forall k :: 0 <= k < |p| ==> p[k] in live && p[k] in g) &&
    (forall k :: 0 <= k < |p| - 1 ==> p[k] in g && p[k + 1] in Succ(model, saved, g, p[k]))
  }

  ghost predicate Reaches(model: Model, saved: Store, g: Store, live: set<Id>, x: Id, y: Id) {
    exists p :: IsPath(model, saved, g, live, p) && p[0] == x && p[|p| - 1] == y
  }

  /** The entities a soft delete of `x` marks: those reachable from `x`
      through followed navigations without passing a deleted entity. */
  ghost function CascadeSet(model: Model, saved: Store, m: Store, x: Id): set<Id> {
    set y | y in m && Reaches(model, saved, m, Live(m), x, y)
  }

  function MarkDeleted(m: Store, s: set<Id>, now: Time): Store {
    map k | k in m :: if k in s then m[k].(deletedDate := Some(now)) else m[k]
  }

  /** The in-memory state after soft-deleting `x` at `now`. */
  ghost function SoftDeleted(model: Model, saved: Store, m: Store, x: Id, now: Time): Store {
    MarkDeleted(m, CascadeSet(model, saved, m, x), now)
  }

  // ---------------------------------------------------------------------
  // Relations between states during the traversal

  /** Same entities, types and navigations; only timestamps may differ. */
  predicate SameShape(g: Store, m: Store) {
    g.Keys == m.Keys &&
    forall k :: k in g ==> g[k].clrType == m[k].clrType && g[k].links == m[k].links
  }

  /** `m1` is `m0` with some live entities marked deleted at `now`, and nothing else changed. */
  predicate Marks(m0: Store, m1: Store, now: Time) {
    m1.Keys == m0.Keys &&
    forall k :: k in m0 ==>
      m1[k] == m0[k] || (m0[k].deletedDate.None? && m1[k] == m0[k].(deletedDate := Some(now)))
  }

  /** Every successor of an entity marked between `l0` and `l1` is no longer live. */
  ghost predicate Closed(model: Model, saved: Store, g: Store, l0: set<Id>, l1: set<Id>) {
    forall y {:trigger Succ(model, saved, g, y)} :: y in l0 && y !in l1 && y in g ==>
      forall t :: t in Succ(model, saved, g, y) ==> t !in l1
  }

  /** Every entity marked between `l0` and `l1` is reachable from `x` within `l0`. */
  ghost predicate Sound(model: Model, saved: Store, g: Store, l0: set<Id>, l1: set<Id>, x: Id) {
    forall y {:trigger Reaches(model, saved, g, l0, x, y)} :: y in l0 && y !in l1 ==> Reaches(model, saved, g, l0, x, y)
  }

  lemma MarksTransitive(a: Store, b: Store, c: Store, now: Time)
    requires Marks(a, b, now) && Marks(b, c, now)
    ensures Marks(a, c, now)
  {
  }

  lemma MarksShrinksLive(g: Store, a: Store, b: Store, now: Time)
    requires SameShape(g, a) && Marks(a, b, now)
    ensures SameShape(g, b) && Live(b) <= Live(a)
  {
  }

  /** A run of marks is exactly MarkDeleted of the entities that stopped being live. */
  lemma MarksExact(m0: Store, m1: Store, now: Time)
    requires Marks(m0, m1, now)
    ensures m1 == MarkDeleted(m0, Live(m0) - Live(m1), now)
  {
    var r := MarkDeleted(m0, Live(m0) - Live(m1), now);
    assert m1.Keys == r.Keys;
    forall k | k in m1
      ensures m1[k] == r[k]
    {
    }
  }

  lemma SubsetCard(a: set<Id>, b: set<Id>)
    requires a <= b
    ensures |a| <= |b|
  {
    assert b == a + (b - a);
  }

  lemma ReachesSelf(model: Model, saved: Store, g: Store, live: set<Id>, x: Id)
    requires x in live && x in g
    ensures Reaches(model, saved, g, live, x, x)
  {
    assert IsPath(model, saved, g, live, [x]);
  }

  lemma ReachesWider(model: Model, saved: Store, g: Store, small: set<Id>, big: set<Id>, x: Id, y: Id)
    requires small <= big && Reaches(model, saved, g, small, x, y)
    ensures Reaches(model, saved, g, big, x, y)
  {
    var p :| IsPath(model, saved, g, small, p) && p[0] == x && p[|p| - 1] == y;
    assert IsPath(model, saved, g, big, p);
  }

  lemma ReachesPrepend(model: Model, saved: Store, g: Store, live: set<Id>, x: Id, t: Id, y: Id)
    requires x in live && x in g && t in Succ(model, saved, g, x)
    requires Reaches(model, saved, g, live, t, y)
    ensures Reaches(model, saved, g, live, x, y)
  {
    var p :| IsPath(model, saved, g, live, p) && p[0] == t && p[|p| - 1] == y;
    var q := [x] + p;
    forall k | 0 <= k < |q| - 1
      ensures q[k] in g && q[k + 1] in Succ(model, saved, g, q[k])
    {
      if k > 0 {
        assert q[k] == p[k - 1] && q[k + 1] == p[k];
      }
    }
    assert IsPath(model, saved, g, live, q);
  }

  /** Every node of a path from a marked start is marked, when the marked set is closed. */
  lemma {:induction false} PathMarked(model: Model, saved: Store, g: Store, l0: set<Id>, l1: set<Id>, p: seq<Id>, k: nat)
    requires IsPath(model, saved, g, l0, p) && k < |p|
    requires p[0] !in l1
    requires Closed(model, saved, g, l0, l1)
    ensures p[k] !in l1
  {
    if k > 0 {
      PathMarked(model, saved, g, l0, l1, p, k - 1);
      assert p[k] in Succ(model, saved, g, p[k - 1]);
    }
  }

  /** A traversal that marks its start, is closed and marks only reachable
      entities has marked exactly the cascade set. */
  lemma {:induction false} TraversalMarksCascadeSet(model: Model, saved: Store, m0: Store, l1: set<Id>, x: Id)
    requires l1 <= Live(m0)
    requires x in Live(m0) ==> x !in l1
    requires Closed(model, saved, m0, Live(m0), l1)
    requires Sound(model, saved, m0, Live(m0), l1, x)
    ensures Live(m0) - l1 == CascadeSet(model, saved, m0, x)
  {
    var l0 := Live(m0);
    forall y | y in CascadeSet(model, saved, m0, x)
      ensures y in l0 - l1
    {
      var p :| IsPath(model, saved, m0, l0, p) && p[0] == x && p[|p| - 1] == y;
      PathMarked(model, saved, m0, l0, l1, p, |p| - 1);
    }
  }

  // ---------------------------------------------------------------------
  // Properties of soft delete

  lemma CascadeSetLive(model: Model, saved: Store, m: Store, x: Id)
    ensures CascadeSet(model, saved, m, x) <= Live(m)
    ensures x in Live(m) <==> x in CascadeSet(model, saved, m, x)
  {
    if x in Live(m) {
      ReachesSelf(model, saved, m, Live(m), x);
    }
    forall y | y in CascadeSet(model, saved, m, x)
      ensures y in Live(m)
    {
      var p :| IsPath(model, saved, m, Live(m), p) && p[0] == x && p[|p| - 1] == y;
    }
  }

  /** An entity already soft-deleted (or not there) is left alone, and nothing behind it is visited. */
  lemma SoftDeleteOfDeletedIsNoOp(model: Model, saved: Store, m: Store, x: Id, now: Time)
    requires x !in Live(m)
    ensures CascadeSet(model, saved, m, x) == {}
    ensures SoftDeleted(model, saved, m, x, now) == m
  {
    assert forall y :: y in CascadeSet(model, saved, m, x) ==> Reaches(model, saved, m, Live(m), x, y);
  }

  /** Soft delete marks the entity and everything reachable from it through
      cascading navigations over live entities, at `now`; every other entity,
      and every field but DeletedDate, is unchanged. */
  lemma SoftDeleteEffect(model: Model, saved: Store, m: Store, x: Id, now: Time)
    ensures var m' := SoftDeleted(model, saved, m, x, now);
      m'.Keys == m.Keys &&
      Marks(m, m', now) &&
      (x in Live(m) ==> m'[x].deletedDate == Some(now)) &&
      (forall y :: y in CascadeSet(model, saved, m, x) ==> m'[y].deletedDate == Some(now)) &&
      (forall y :: y in m && y !in CascadeSet(model, saved, m, x) ==> m'[y] == m[y])
  {
    CascadeSetLive(model, saved, m, x);
  }

  /** The marked set is closed: a live entity one followed navigation away
      from a marked one is marked too. */
  lemma CascadeSetClosed(model: Model, saved: Store, m: Store, x: Id, y: Id, t: Id)
    requires y in CascadeSet(model, saved, m, x)
    requires t in Succ(model, saved, m, y) && t in Live(m)
    ensures t in CascadeSet(model, saved, m, x)
  {
    var p :| IsPath(model, saved, m, Live(m), p) && p[0] == x && p[|p| - 1] == y;
    var q := p + [t];
    assert IsPath(model, saved, m, Live(m), q);
  }

  /** Soft-deleting twice is the same as once. */
  lemma SoftDeleteIdempotent(model: Model, saved: Store, m: Store, x: Id, now: Time, later: Time)
    ensures var m' := SoftDeleted(model, saved, m, x, now);
      SoftDeleted(model, saved, m', x, later) == m'
  {
    var m' := SoftDeleted(model, saved, m, x, now);
    CascadeSetLive(model, saved, m, x);
    assert x !in Live(m');
    SoftDeleteOfDeletedIsNoOp(model, saved, m', x, later);
  }
}
