# CleanArchitecture.CorePackages persistence layer, modelled in Dafny

This project models the persistence layer of CleanArchitecture.CorePackages: the
generic Entity Framework repository `EfRepositoryBase`, the paginator
(`PaginateAsync` and `Paginate<T>`) and the dynamic filter and sort compiler
(`IQueryableDynamicFilterExtensions`).

- `Wrappers.dfy`: `Option` stands for a C# null and `Result` for a thrown exception.
- `Text.dfy`: ASCII lower-casing, decimal rendering of a placeholder index, and
  joining and splitting on a separator.
- `DynamicFilter.dfy`: the filter tree (`Filter`), its pre-order listing
  (`GetAllFilters`, `GetFilters`), the parameter array, `Transform` as a
  compiler from a tree to a where-predicate, the where-string it renders,
  `Filter`, `Sort` and `ToDynamic`. Every `ArgumentException` is an error value.
- `Paging.dfy`: `Paginate<T>` with its two computed flags, `PaginateAsync`
  over the rows the query yields, and 32-bit `int` arithmetic where the source
  can overflow (`index * size`, `Index + 1`).
- `EntityGraph.dfy`: entities with the `IEntityTimeStamps` timestamps, the EF
  navigation metadata that soft delete reads, the relation loader's query, and a
  declarative description of cascading soft delete. `CascadeSet` is the set of
  entities reachable from the deleted one through followed navigations without
  passing an entity that is already deleted.
- `Repository.dfy`: the `DbContext` (change tracker, database and save
  counter), the one-to-one guard, and the class `EfRepositoryBase`, covering
  its read paths, its add, update and delete operations, the recursive
  `SetEntityAsSoftDeletedAsync` and the synchronous stubs. The recursive soft
  delete is proved to stamp exactly `CascadeSet` with one timestamp.

Where the code departs from what its names and structure suggest was intended, the model follows the code as written:

- `contains` is negated exactly like `doesnotcontain`; both emit `!np(field).Op(@i)`.
- A node whose `Logic` is null keeps its children out of the where-string without validating them.
- The parameter array holds one value for every node of the tree, including nodes that emit no placeholder.
- Every comparison wraps its field in `np(...)`.
- The soft-delete recursion ends because `DeletedDate` is set before the navigations are visited; a cycle reaches an already-deleted entity and returns.
- `HasNextPage` is `Index + 1 < TotalPages` in unchecked `int` arithmetic, so at `Index == int.MaxValue` it wraps around and claims a next page (`NextPageAtLargestIndex`).

## Model

| member | source | states |
|---|---|---|
| Text.Lower | CleanArchitecture.CorePackages/CleanArchitecture.CorePackages.Persistance/Dynamic/IQueryableDynamicFilterExtensions.cs:87 | lower-casing keeps the length and maps each character through ASCII lower-casing |
| Text.NatToStringRoundTrip | CleanArchitecture.CorePackages/CleanArchitecture.CorePackages.Persistance/Dynamic/IQueryableDynamicFilterExtensions.cs:96-100 | `index.ToString()` is a non-empty digit string that parses back to the index |
| Text.SplitJoin | CleanArchitecture.CorePackages/CleanArchitecture.CorePackages.Persistance/Dynamic/IQueryableDynamicFilterExtensions.cs:62 | splitting a comma-joined list of comma-free parts gives the parts back |
| DynamicFilter.FilterList.Add | CleanArchitecture.CorePackages/CleanArchitecture.CorePackages.Persistance/Dynamic/IQueryableDynamicFilterExtensions.cs:77 | `filters.Add` appends exactly one node at the end of the list |
| DynamicFilter.GetFilters | CleanArchitecture.CorePackages/CleanArchitecture.CorePackages.Persistance/Dynamic/IQueryableDynamicFilterExtensions.cs:75-81 | the list grows by the node's pre-order listing: the node, then each child's subtree in order |
| DynamicFilter.GetAllFilters | CleanArchitecture.CorePackages/CleanArchitecture.CorePackages.Persistance/Dynamic/IQueryableDynamicFilterExtensions.cs:68-73 | the result is the pre-order listing of the whole tree |
| DynamicFilter.FlattenSize | CleanArchitecture.CorePackages/CleanArchitecture.CorePackages.Persistance/Dynamic/IQueryableDynamicFilterExtensions.cs:68-81 | the listing has one entry per node of the tree and starts with the root |
| DynamicFilter.PreOrderBlock | CleanArchitecture.CorePackages/CleanArchitecture.CorePackages.Persistance/Dynamic/IQueryableDynamicFilterExtensions.cs:78-80 | the j-th child's subtree occupies one contiguous block, right after the blocks of the earlier children |
| DynamicFilter.ParameterValues | CleanArchitecture.CorePackages/CleanArchitecture.CorePackages.Persistance/Dynamic/IQueryableDynamicFilterExtensions.cs:43 | the value array has one entry per listed node: that node's Value, null or not |
| DynamicFilter.OwnPredicate | CleanArchitecture.CorePackages/CleanArchitecture.CorePackages.Persistance/Dynamic/IQueryableDynamicFilterExtensions.cs:91-105 | the node's own condition: a comparison on its pre-order position when Value is non-empty, negated for `contains` and `doesnotcontain`; a null test for the four exact null-test keywords; otherwise nothing (properties in CompileBinds, ContainsIsNegated, NullTestsAreCaseSensitive) |
| DynamicFilter.Compile | CleanArchitecture.CorePackages/CleanArchitecture.CorePackages.Persistance/Dynamic/IQueryableDynamicFilterExtensions.cs:83-115 | Transform's checks in source order (field, operator, logic, then the children) and the predicate it builds (properties in CompileSucceedsIff, RootErrorsFirst, CompileBinds) |
| DynamicFilter.Render | CleanArchitecture.CorePackages/CleanArchitecture.CorePackages.Persistance/Dynamic/IQueryableDynamicFilterExtensions.cs:96-114 | the where-string text of a predicate: comparisons, null tests, the empty string, and a parenthesised group joined by its logic (properties in RenderEmpty, RenderComparison, RenderOneChildGroup) |
| DynamicFilter.Transform | CleanArchitecture.CorePackages/CleanArchitecture.CorePackages.Persistance/Dynamic/IQueryableDynamicFilterExtensions.cs:83-115 | Transform is Compile followed by Render, with the same errors (properties in CompileSucceedsIff and RootErrorsFirst) |
| DynamicFilter.WhereOf | CleanArchitecture.CorePackages/CleanArchitecture.CorePackages.Persistance/Dynamic/IQueryableDynamicFilterExtensions.cs:40-48 | the Where clause Filter adds: none for an empty where-string, else the string with the value array (properties in WhereClauseShape, PlaceholdersBindOwnValues) |
| DynamicFilter.OrderByOf | CleanArchitecture.CorePackages/CleanArchitecture.CorePackages.Persistance/Dynamic/IQueryableDynamicFilterExtensions.cs:50-66 | Sort: every specification is validated before any ordering, then one comma-joined order-by, none for an empty list (properties in OrderByKeys) |
| DynamicFilter.DynamicPlan | CleanArchitecture.CorePackages/CleanArchitecture.CorePackages.Persistance/Dynamic/IQueryableDynamicFilterExtensions.cs:30-38 | ToDynamic: the filter when present, then the sort when the list is non-empty (properties in DynamicPlanOrder) |
| DynamicFilter.SortErrorMessages | CleanArchitecture.CorePackages/CleanArchitecture.CorePackages.Persistance/Dynamic/IQueryableDynamicFilterExtensions.cs:54-57 | an invalid sort throws "Field is invalid" for a null or empty field and otherwise "Dir is invalid" |
| DynamicFilter.RenderEmpty | CleanArchitecture.CorePackages/CleanArchitecture.CorePackages.Persistance/Dynamic/IQueryableDynamicFilterExtensions.cs:92-114 | a where-string is empty exactly when the node contributes no condition |
| DynamicFilter.CompileSucceedsIff | CleanArchitecture.CorePackages/CleanArchitecture.CorePackages.Persistance/Dynamic/IQueryableDynamicFilterExtensions.cs:85-111 | Transform succeeds if and only if every node it examines has a field, a known operator, and a known logic when it combines children |
| DynamicFilter.CompileAllSucceedsIff | CleanArchitecture.CorePackages/CleanArchitecture.CorePackages.Persistance/Dynamic/IQueryableDynamicFilterExtensions.cs:111 | the children's transforms all succeed if and only if every node they examine is valid |
| DynamicFilter.RootErrorsFirst | CleanArchitecture.CorePackages/CleanArchitecture.CorePackages.Persistance/Dynamic/IQueryableDynamicFilterExtensions.cs:85-114 | the field check comes before the operator check, the logic check comes before any child, and a node that does not combine returns its own predicate |
| DynamicFilter.CompileBinds | CleanArchitecture.CorePackages/CleanArchitecture.CorePackages.Persistance/Dynamic/IQueryableDynamicFilterExtensions.cs:90-111 | every `@i` in a subtree's output lies inside the subtree's listing block and is emitted by the node at position i, with that node's field and operator |
| DynamicFilter.CompileAllBinds | CleanArchitecture.CorePackages/CleanArchitecture.CorePackages.Persistance/Dynamic/IQueryableDynamicFilterExtensions.cs:111 | the same binding holds for a list of sibling subtrees laid out one after another |
| DynamicFilter.PlaceholdersBindOwnValues | CleanArchitecture.CorePackages/CleanArchitecture.CorePackages.Persistance/Dynamic/IQueryableDynamicFilterExtensions.cs:42-46 | every placeholder `@i` of the whole where-string indexes the value array at the node that emitted it, and that node has a non-empty value |
| DynamicFilter.WhereClauseShape | CleanArchitecture.CorePackages/CleanArchitecture.CorePackages.Persistance/Dynamic/IQueryableDynamicFilterExtensions.cs:40-48 | Filter adds no Where clause exactly when the where-string is empty; otherwise it adds that string with one value per node |
| DynamicFilter.ApplyFilter | CleanArchitecture.CorePackages/CleanArchitecture.CorePackages.Persistance/Dynamic/IQueryableDynamicFilterExtensions.cs:40-48 | the filter step lists the tree, gathers the values and transforms the tree, as the specification function `WhereOf` does |
| DynamicFilter.FirstInvalidSort | CleanArchitecture.CorePackages/CleanArchitecture.CorePackages.Persistance/Dynamic/IQueryableDynamicFilterExtensions.cs:52-58 | the first sort specification with an empty field or an unknown direction; all earlier ones are valid |
| DynamicFilter.ApplySort | CleanArchitecture.CorePackages/CleanArchitecture.CorePackages.Persistance/Dynamic/IQueryableDynamicFilterExtensions.cs:50-66 | validation of every specification comes first, then one comma-joined order-by, as `OrderByOf` does |
| DynamicFilter.OrderByKeys | CleanArchitecture.CorePackages/CleanArchitecture.CorePackages.Persistance/Dynamic/IQueryableDynamicFilterExtensions.cs:50-66 | sorting fails if and only if some specification is invalid; otherwise the order-by splits back into the "Field Dir" keys in the order given |
| DynamicFilter.DynamicPlanOrder | CleanArchitecture.CorePackages/CleanArchitecture.CorePackages.Persistance/Dynamic/IQueryableDynamicFilterExtensions.cs:30-38 | a filter error is reported before the sort is examined; an absent or empty sort list is never validated and orders nothing |
| DynamicFilter.ToDynamic | CleanArchitecture.CorePackages/CleanArchitecture.CorePackages.Persistance/Dynamic/IQueryableDynamicFilterExtensions.cs:30-38 | the filter is applied first, then the sort when the list is non-empty, as `DynamicPlan` does |
| DynamicFilter.AgeRangeExample | CleanArchitecture.CorePackages/CleanArchitecture.CorePackages.Persistance/Dynamic/IQueryableDynamicFilterExtensions.cs:42-43 | `age gte 18 and (age lt 65)` compiles to a group of two comparisons on @0 and @1, and the value array is ["18", "65"] |
| DynamicFilter.AgeRangeRendering | CleanArchitecture.CorePackages/CleanArchitecture.CorePackages.Persistance/Dynamic/IQueryableDynamicFilterExtensions.cs:100-111 | that tree renders as `(np(age).>=(@0) and (np(age).<(@1)))` |
| DynamicFilter.RenderComparison | CleanArchitecture.CorePackages/CleanArchitecture.CorePackages.Persistance/Dynamic/IQueryableDynamicFilterExtensions.cs:95-100 | a comparison renders as `np(field).op(@i)`, with a leading `!` when negated, and the placeholder text is the decimal index, which parses back to the index |
| DynamicFilter.RenderOneDigitComparison | CleanArchitecture.CorePackages/CleanArchitecture.CorePackages.Persistance/Dynamic/IQueryableDynamicFilterExtensions.cs:100 | a non-negated comparison with a one-digit index renders as `np(field).op(@d)` |
| DynamicFilter.RenderOneChildGroup | CleanArchitecture.CorePackages/CleanArchitecture.CorePackages.Persistance/Dynamic/IQueryableDynamicFilterExtensions.cs:111 | a node with one child renders as `(own logic (child))` |
| DynamicFilter.ContainsIsNegated | CleanArchitecture.CorePackages/CleanArchitecture.CorePackages.Persistance/Dynamic/IQueryableDynamicFilterExtensions.cs:95-96 | the `contains` operator emits a negated `Contains` comparison |
| DynamicFilter.NullTestsAreCaseSensitive | CleanArchitecture.CorePackages/CleanArchitecture.CorePackages.Persistance/Dynamic/IQueryableDynamicFilterExtensions.cs:102-105 | with no value, `isnull` emits `np(field).==`, but `ISNULL` passes validation and emits nothing |
| DynamicFilter.NullLogicDropsChildren | CleanArchitecture.CorePackages/CleanArchitecture.CorePackages.Persistance/Dynamic/IQueryableDynamicFilterExtensions.cs:107-114 | a node with a null Logic ignores its children, even an invalid one |
| Paging.Paginate.HasPreviousPage | CleanArchitecture.CorePackages/CleanArchitecture.CorePackages.Persistance/Pagings/Paginate.cs:12 | there is a previous page when the index is positive (properties in PageFlags) |
| Paging.Paginate.HasNextPage | CleanArchitecture.CorePackages/CleanArchitecture.CorePackages.Persistance/Pagings/Paginate.cs:13 | there is a next page when the 32-bit `Index + 1` is below TotalPages (properties in PageFlags, NoNextPageAtEnd, NextPageAtLargestIndex) |
| Paging.CeilDiv | CleanArchitecture.CorePackages/CleanArchitecture.CorePackages.Persistance/Pagings/IQueryablePaginateExtensions.cs:20 | the page count `(count + size - 1) / size` (properties in TotalPagesIsCeiling) |
| Paging.Wrap32 | CleanArchitecture.CorePackages/CleanArchitecture.CorePackages.Persistance/Pagings/IQueryablePaginateExtensions.cs:14 | unchecked `int` arithmetic: the identity on values that fit in 32 bits |
| Paging.NewPaginate | CleanArchitecture.CorePackages/CleanArchitecture.CorePackages.Persistance/Pagings/Paginate.cs:3-6 | a new page has no items, a zero count, and neither a previous nor a next page |
| Paging.Skip | CleanArchitecture.CorePackages/CleanArchitecture.CorePackages.Persistance/Pagings/IQueryablePaginateExtensions.cs:14 | skipping zero or fewer rows keeps all of them; skipping past the end keeps none |
| Paging.Take | CleanArchitecture.CorePackages/CleanArchitecture.CorePackages.Persistance/Pagings/IQueryablePaginateExtensions.cs:14 | taking keeps at most n leading rows, and none for n of zero or less |
| Paging.PaginateQuery | CleanArchitecture.CorePackages/CleanArchitecture.CorePackages.Persistance/Pagings/IQueryablePaginateExtensions.cs:5-24 | the page echoes index and size, counts the whole query, and holds at most `size` rows, all of them from the query |
| Paging.TotalPagesIsCeiling | CleanArchitecture.CorePackages/CleanArchitecture.CorePackages.Persistance/Pagings/IQueryablePaginateExtensions.cs:20 | TotalPages is the least page count that holds every row; there are no pages exactly when there are no rows |
| Paging.PaginateWindow | CleanArchitecture.CorePackages/CleanArchitecture.CorePackages.Persistance/Pagings/IQueryablePaginateExtensions.cs:13-20 | when `index * size` fits in an int, the items are the contiguous slice starting there, clamped to the query |
| Paging.WindowIsSlice | CleanArchitecture.CorePackages/CleanArchitecture.CorePackages.Persistance/Pagings/IQueryablePaginateExtensions.cs:14 | Skip followed by Take is the slice of the query from `start` of length at most `size` |
| Paging.PageFlags | CleanArchitecture.CorePackages/CleanArchitecture.CorePackages.Persistance/Pagings/Paginate.cs:12-13 | below the largest index there is a next page exactly when rows remain after this page, and a previous page exactly when the index is positive |
| Paging.NoNextPageAtEnd | CleanArchitecture.CorePackages/CleanArchitecture.CorePackages.Persistance/Pagings/Paginate.cs:12-13 | the last page, and the empty result at index 0, have no next page |
| Paging.NextPageAtLargestIndex | CleanArchitecture.CorePackages/CleanArchitecture.CorePackages.Persistance/Pagings/Paginate.cs:13 | at `Index == int.MaxValue`, `Index + 1` wraps around and HasNextPage is true whatever the page count |
| EntityGraph.CascadesOnDelete | CleanArchitecture.CorePackages/CleanArchitecture.CorePackages.Persistance/Repositories/EfRepositoryBase.cs:160-164 | the navigation filter: principal side, with a Cascade or ClientCascade delete behaviour |
| EntityGraph.Followed | CleanArchitecture.CorePackages/CleanArchitecture.CorePackages.Persistance/Repositories/EfRepositoryBase.cs:160-171 | a navigation soft delete recurses through: cascading, to a non-owned type, with a property |
| EntityGraph.Visits | CleanArchitecture.CorePackages/CleanArchitecture.CorePackages.Persistance/Repositories/EfRepositoryBase.cs:173-196 | the entities one navigation leads to: the non-null value in memory, else the loader's rows; all of a collection, the first of a reference, none when the loader finds nothing |
| EntityGraph.CascadeSet | CleanArchitecture.CorePackages/CleanArchitecture.CorePackages.Persistance/Repositories/EfRepositoryBase.cs:154-201 | the entities a soft delete stamps: those reachable from the root through followed navigations without passing an entity that is already deleted (properties in TraversalMarksCascadeSet, CascadeSetLive, CascadeSetClosed) |
| EntityGraph.LoadRelated | CleanArchitecture.CorePackages/CleanArchitecture.CorePackages.Persistance/Repositories/EfRepositoryBase.cs:203-213 | the relation loader returns exactly the related stored rows whose DeletedDate is null |
| EntityGraph.TraversalMarksCascadeSet | CleanArchitecture.CorePackages/CleanArchitecture.CorePackages.Persistance/Repositories/EfRepositoryBase.cs:154-201 | a traversal that is closed under followed navigations and stamps only what it reaches stamps exactly CascadeSet |
| EntityGraph.CascadeSetLive | CleanArchitecture.CorePackages/CleanArchitecture.CorePackages.Persistance/Repositories/EfRepositoryBase.cs:156-158 | only entities not yet deleted are in the cascade, and a live entity is always in its own cascade |
| EntityGraph.SoftDeleteOfDeletedIsNoOp | CleanArchitecture.CorePackages/CleanArchitecture.CorePackages.Persistance/Repositories/EfRepositoryBase.cs:156-157 | soft-deleting an entity that already has a DeletedDate changes nothing |
| EntityGraph.SoftDeleteEffect | CleanArchitecture.CorePackages/CleanArchitecture.CorePackages.Persistance/Repositories/EfRepositoryBase.cs:154-201 | soft delete stamps the cascade with `now` and leaves every other entity, and every other field, unchanged |
| EntityGraph.CascadeSetClosed | CleanArchitecture.CorePackages/CleanArchitecture.CorePackages.Persistance/Repositories/EfRepositoryBase.cs:160-197 | a live entity that a cascaded entity reaches through a followed navigation is in the cascade too |
| EntityGraph.SoftDeleteIdempotent | CleanArchitecture.CorePackages/CleanArchitecture.CorePackages.Persistance/Repositories/EfRepositoryBase.cs:156-158 | soft-deleting the same entity again, at any later time, changes nothing |
| Repository.Where | CleanArchitecture.CorePackages/CleanArchitecture.CorePackages.Persistance/Repositories/EfRepositoryBase.cs:45 | `Where` keeps exactly the rows that satisfy the predicate |
| Repository.FirstMatch | CleanArchitecture.CorePackages/CleanArchitecture.CorePackages.Persistance/Repositories/EfRepositoryBase.cs:73 | `FirstOrDefaultAsync` returns the first matching row, and null exactly when no row matches |
| Repository.Narrow | CleanArchitecture.CorePackages/CleanArchitecture.CorePackages.Persistance/Repositories/EfRepositoryBase.cs:44-45 | a null predicate leaves the query unchanged; otherwise the query keeps only the matching rows |
| Repository.Ascending | CleanArchitecture.CorePackages/CleanArchitecture.CorePackages.Persistance/Repositories/EfRepositoryBase.cs:106 | the stored keys in strictly ascending order, each exactly once |
| Repository.AllowsSoftDelete | CleanArchitecture.CorePackages/CleanArchitecture.CorePackages.Persistance/Repositories/EfRepositoryBase.cs:146-148 | one foreign key passes the guard: a collection on either side, or a navigation to the principal on a key the runtime type itself declares |
| Repository.HasOneToOneRelation | CleanArchitecture.CorePackages/CleanArchitecture.CorePackages.Persistance/Repositories/EfRepositoryBase.cs:139-152 | the guard refuses exactly when some foreign key of the entity's type fails that test (properties in AllForeignKeysAllow, OneToOneGuardExamples) |
| Repository.AllForeignKeysAllow | CleanArchitecture.CorePackages/CleanArchitecture.CorePackages.Persistance/Repositories/EfRepositoryBase.cs:141-149 | `All(...)` holds if and only if every foreign key has a collection end, or a dependent-to-principal navigation on a key the entity's own type declares |
| Repository.OneToOneGuardExamples | CleanArchitecture.CorePackages/CleanArchitecture.CorePackages.Persistance/Repositories/EfRepositoryBase.cs:139-151 | among the dependent's own keys, a one-to-one key without a navigation from the dependent, a key without navigations, and a key declared by a base type are refused; a many-to-one key, and a one-to-one key with a navigation from the dependent, are allowed |
| Repository.TrackAll | CleanArchitecture.CorePackages/CleanArchitecture.CorePackages.Persistance/Repositories/EfRepositoryBase.cs:32 | `AddRange` and `UpdateRange` track every listed row and leave every other tracked entity as it was |
| Repository.TrackAllDistinct | CleanArchitecture.CorePackages/CleanArchitecture.CorePackages.Persistance/Repositories/EfRepositoryBase.cs:121 | with distinct keys, every listed row is tracked with its own values |
| Repository.FirstRefused | CleanArchitecture.CorePackages/CleanArchitecture.CorePackages.Persistance/Repositories/EfRepositoryBase.cs:215-219 | the first entity of a range that the one-to-one guard refuses; all earlier ones pass |
| Repository.DbContext.constructor | CleanArchitecture.CorePackages/CleanArchitecture.CorePackages.Persistance/Repositories/EfRepositoryBase.cs:15-18 | the context starts with the tracker equal to the database and no saves |
| Repository.DbContext.Track | CleanArchitecture.CorePackages/CleanArchitecture.CorePackages.Persistance/Repositories/EfRepositoryBase.cs:23 | `Add` and `Update` track one entity with its values; the database is unchanged |
| Repository.DbContext.TrackRange | CleanArchitecture.CorePackages/CleanArchitecture.CorePackages.Persistance/Repositories/EfRepositoryBase.cs:32 | `AddRange` and `UpdateRange` track the rows; the database is unchanged |
| Repository.DbContext.Remove | CleanArchitecture.CorePackages/CleanArchitecture.CorePackages.Persistance/Repositories/EfRepositoryBase.cs:135 | `Remove` drops one entity from the tracker; the database is unchanged |
| Repository.DbContext.SaveChanges | CleanArchitecture.CorePackages/CleanArchitecture.CorePackages.Persistance/Repositories/EfRepositoryBase.cs:24 | saving writes the tracker to the database and counts one save |
| Repository.EfRepositoryBase.constructor | CleanArchitecture.CorePackages/CleanArchitecture.CorePackages.Persistance/Repositories/EfRepositoryBase.cs:15-18 | the repository keeps the context it is given |
| Repository.EfRepositoryBase.Query | CleanArchitecture.CorePackages/CleanArchitecture.CorePackages.Persistance/Repositories/EfRepositoryBase.cs:106 | the set yields exactly the stored rows whose runtime type is the repository's entity type, in key order (derived types are not included; see Left out) |
| Repository.EfRepositoryBase.Scope | CleanArchitecture.CorePackages/CleanArchitecture.CorePackages.Persistance/Repositories/EfRepositoryBase.cs:42-43 | `withDeleted` lifts the global query filter; otherwise only the rows the filter accepts remain |
| Repository.EfRepositoryBase.GetAsync | CleanArchitecture.CorePackages/CleanArchitecture.CorePackages.Persistance/Repositories/EfRepositoryBase.cs:64-74 | GetAsync returns a row in scope that satisfies the predicate, and null exactly when no such row exists |
| Repository.EfRepositoryBase.AnyAsync | CleanArchitecture.CorePackages/CleanArchitecture.CorePackages.Persistance/Repositories/EfRepositoryBase.cs:37-48 | AnyAsync is true if and only if some row in scope satisfies the predicate, or any row exists when the predicate is null |
| Repository.EfRepositoryBase.GetListAsync | CleanArchitecture.CorePackages/CleanArchitecture.CorePackages.Persistance/Repositories/EfRepositoryBase.cs:76-90 | one page of at most `size` rows, each in scope and matching the predicate; the count is that of the filtered query |
| Repository.EfRepositoryBase.SoftDeletedRowsHidden | CleanArchitecture.CorePackages/CleanArchitecture.CorePackages.Persistance/Repositories/EfRepositoryBase.cs:71-73 | after a saved soft delete, a read that keeps a query filter hiding DeletedDate rows returns none of the cascade |
| Repository.EfRepositoryBase.GetListByDynamicAsync | CleanArchitecture.CorePackages/CleanArchitecture.CorePackages.Persistance/Repositories/EfRepositoryBase.cs:92-104 | fails exactly when the dynamic query does, with its error; otherwise returns one page of the planned, scoped, filtered query, every item matching the predicate |
| Repository.EfRepositoryBase.AddAsync | CleanArchitecture.CorePackages/CleanArchitecture.CorePackages.Persistance/Repositories/EfRepositoryBase.cs:20-26 | stamps CreatedDate, tracks the entity and saves once |
| Repository.EfRepositoryBase.AddRangeAsync | CleanArchitecture.CorePackages/CleanArchitecture.CorePackages.Persistance/Repositories/EfRepositoryBase.cs:28-35 | stamps every CreatedDate, tracks them all and saves once |
| Repository.EfRepositoryBase.UpdateAsync | CleanArchitecture.CorePackages/CleanArchitecture.CorePackages.Persistance/Repositories/EfRepositoryBase.cs:109-115 | stamps UpdatedDate, tracks the entity and saves once |
| Repository.EfRepositoryBase.UpdateRangeAsync | CleanArchitecture.CorePackages/CleanArchitecture.CorePackages.Persistance/Repositories/EfRepositoryBase.cs:117-124 | stamps every UpdatedDate, tracks them all and saves once |
| Repository.EfRepositoryBase.DeleteAsync | CleanArchitecture.CorePackages/CleanArchitecture.CorePackages.Persistance/Repositories/EfRepositoryBase.cs:50-55 | a soft delete of a one-to-one entity throws and saves nothing; otherwise the entity is removed or its cascade is stamped, then one save |
| Repository.EfRepositoryBase.DeleteRangeAsync | CleanArchitecture.CorePackages/CleanArchitecture.CorePackages.Persistance/Repositories/EfRepositoryBase.cs:57-62 | entities are deleted in order and saved once; the first refused entity stops the loop, leaving the earlier marks unsaved in memory |
| Repository.EfRepositoryBase.SetEntityAsDeletedAsync | CleanArchitecture.CorePackages/CleanArchitecture.CorePackages.Persistance/Repositories/EfRepositoryBase.cs:126-137 | the one-to-one guard and then soft delete, or removal when permanent; the result equals the declarative `DeleteOne` and nothing is saved |
| Repository.EfRepositoryBase.SetEntityAsSoftDeletedAsync | CleanArchitecture.CorePackages/CleanArchitecture.CorePackages.Persistance/Repositories/EfRepositoryBase.cs:154-201 | only DeletedDate changes, to `now`; the entity ends deleted, and every live entity reachable from it is stamped and nothing else |
| Repository.EfRepositoryBase.SoftDeleteNavigations | CleanArchitecture.CorePackages/CleanArchitecture.CorePackages.Persistance/Repositories/EfRepositoryBase.cs:160-198 | after the loop over cascading, non-owned navigations, every successor of the entity is deleted |
| Repository.EfRepositoryBase.SoftDeleteNavigation | CleanArchitecture.CorePackages/CleanArchitecture.CorePackages.Persistance/Repositories/EfRepositoryBase.cs:173-197 | the in-memory value, or else the loaded rows, are deleted: all of a collection, the first of a reference |
| Repository.EfRepositoryBase.SoftDeleteEach | CleanArchitecture.CorePackages/CleanArchitecture.CorePackages.Persistance/Repositories/EfRepositoryBase.cs:184-185 | every item of a collection navigation ends deleted, and no deleted entity becomes live again |
| Repository.EfRepositoryBase.Synchronous | CleanArchitecture.CorePackages/CleanArchitecture.CorePackages.Persistance/Repositories/EfRepositoryBase.cs:221-270 | every synchronous operation throws NotImplementedException with its standard message and changes nothing |

## Left out

- Running Dynamic LINQ is not modelled: the where-string and the order-by are passed to `evalWhere` and `evalOrderBy`, and the query engine's parse errors are not modelled.
- Entity Framework internals are not modelled: `Include`, entity states and relationship fix-up.
- Repository.EfRepositoryBase.Query: every read returns the stored values, as a read with `AsNoTracking` does; the `enableTracking` flag is not modelled. With tracking on, as by default, Entity Framework returns an already-tracked instance with its unsaved changes, for example the `DeletedDate` marks left in memory by a `DeleteRangeAsync` that was refused part-way; the model's reads do not see them.
- Repository.EfRepositoryBase.Query: `Set<TEntity>()` also returns entities of types derived from `TEntity`; the model keeps only rows whose runtime type is exactly the entity type, so for a type hierarchy GetAsync, AnyAsync, GetListAsync and GetListByDynamicAsync see fewer rows than the program does.
- EntityGraph.Visits: relationship fix-up is not modelled. Rows that the loader brings into the context during a soft delete can fill a still-null collection navigation of another tracked entity, so a later visit in the source may find a partial collection in memory where the model reads the entity's `links` and may call the loader instead.
- DynamicFilter.Filter and DynamicFilter.Sort cannot hold a null element in `Filters` or in the sort list; the source throws a NullReferenceException on one (lines 52-58 and 75-80 of IQueryableDynamicFilterExtensions.cs), which is not modelled.
- `async`, `await` and the `CancellationToken` are not modelled: every operation runs to completion.
- Text.Lower: `ToLower` is culture-sensitive and the model lowers ASCII letters only. Under a Turkish culture `"ISNULL".ToLower()` is `"ısnull"`, which fails the operator check at line 87 of IQueryableDynamicFilterExtensions.cs; so NullTestsAreCaseSensitive's "`ISNULL` passes validation" holds only outside such cultures.
- Paging.PaginateQuery: requires a positive size and treats the count as unbounded. A count above `int.MaxValue` is not modelled. A zero size (a floating-point division by zero) and a negative size (a negative page count and a negative Take) are not modelled either.
- Paging.Skip: follows LINQ to Objects, so a negative or wrapped-around offset keeps all rows, while a SQL provider rejects a negative OFFSET.
- `DateTime.UtcNow` is one `now` parameter per call, although the source reads the clock once per entity.
- `GetRelationLoaderQuery` builds its query by reflection; the model keeps only what the query returns (`LoadRelated`), and the "CreateQuery method not found" exception is not modelled.
- Repository.EfRepositoryBase.DeleteAsync: requires the entity to be tracked; attaching a detached entity is not modelled.
- Repository.EfRepositoryBase.DeleteRangeAsync: requires every entity to be tracked, for the same reason.
- Repository.EfRepositoryBase.SetEntityAsSoftDeletedAsync: returns at once for an id that is not tracked, a case the source, which holds the entity object itself, cannot reach.
- Repository.EfRepositoryBase.DeleteAsync: a permanent delete removes only the one entity. Entity Framework's own cascade on `Remove` is not modelled: it marks Cascade and ClientCascade dependents Deleted and clears the foreign keys of SetNull and ClientSetNull dependents in the change tracker, and for Cascade the database also deletes them. So after a permanent delete the model's database keeps dependent rows that the program deletes, or on which its `SaveChanges` fails with a foreign-key error.
- Repository.EfRepositoryBase.DeleteRangeAsync: a permanent delete of a range has the same gap; Entity Framework's cascade on each `Remove` is not modelled.
- Rows are yielded in key order; the database's own row order is not modelled.
- The global query filter is the `queryFilter` field of the context, fixed when the context is built.
- `Add` and `Update` are the same `Track` operation, because the entity-state difference between them is not modelled.
- Repository.EfRepositoryBase.UpdateAsync: updating a key that is neither tracked nor stored inserts the row in the model, where Entity Framework's `SaveChanges` throws a concurrency exception because no row was affected; UpdateRangeAsync likewise.
- Repository.EfRepositoryBase.AddAsync: the caller supplies the key. Store-generated keys are not modelled, and adding over a key that is already tracked or stored replaces that entity, where Entity Framework throws (on `Add` or at `SaveChanges`).
- Repository.EfRepositoryBase.AddRangeAsync: the same; entities sharing a key, such as the default key of new entities, collapse to the last one, where Entity Framework generates a key for each or throws on the duplicate.
- Repository.EfRepositoryBase.UpdateRangeAsync: a key repeated in the range keeps the last entity, where Entity Framework throws on the second instance with the same key.
- DynamicFilter.CompileBinds: `filters.IndexOf(filter)` is taken to be the node's pre-order position, which holds when the nodes of a tree are distinct objects, as in a deserialised request. A tree built in code that shares one node object in two places makes `IndexOf` return the first position for both; that case is not modelled.
- EntityGraph.Visits: a loaded reference navigation is modelled as holding exactly one entity; a reference link with no targets is read as a null property and goes to the loader, as the source does for a null value.
- `_dbContext.Update(entity)` at the end of soft delete changes no modelled state, since the entity is already tracked with its new DeletedDate.
- Repository.EfRepositoryBase.GetListAsync: with a caller-supplied `orderBy` it guarantees the item property only when `orderBy` merely reorders, and the total count only when there is no `orderBy`, because an arbitrary caller function may change the query.
- The files outside the persistence core (the application pipelines, security, exception middleware and logging) are not part of this model.
