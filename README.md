# business-locator, modelled in Dafny

business-locator is a small Laravel REST service over a directory of
organizations. Each organization sits in a building and is linked to one or
more activities. The activities form a forest through `parent_id`. The
service offers create/read/update/delete on `/organizations`, `/buildings`
and `/activities`, plus searches for organizations:

- by building;
- by one activity;
- recursively by an activity and all its descendants;
- by an activity and at most two generations below it.

The model keeps the database as one `Database` object with four fields:

- the `activities`, `buildings` and `organizations` tables, each a map from
  primary key to row together with its auto-increment counter;
- the `organization_activity` link table, a set of (organization id,
  activity id) pairs.

Every controller action is a module-level method that takes that object,
`db: Database`, and may change it. Each method carries its
validation rules, its order of checks (404 before or after 422), its status
code and the exact new state of every table. The two recursive walks that
collect activity ids are functions. The lemmas about them are proved against
an independent definition of "`y` is `n` generations below `x`".

Files:

- `validation.dfy`: the field rules shared by the controllers.
- `schema.dfy`: rows, tables, listing by descending id, and the `Database`
  class.
- `http.dfy`: statuses and responses.
- `hierarchy.dfy`: the activity forest and the two walks.
- `building_update_request.dfy`: the form request of `PUT /buildings/{id}`.
- `activity_controller.dfy`, `building_controller.dfy`,
  `organization_controller.dfy`: the three controllers.

Inputs are already-typed values. A field absent from the request is `None`
(for `parent_id`, `Missing`, as opposed to an explicit `Null`). Every failed
validation is answered with 422, which is what Laravel's `validate` does.

## Model

| member | source | states |
|---|---|---|
| Schema.Table.Insert | app/Http/Controllers/ActivityController.php:54 | `create` gives the new row the counter's value, an id no row had; the counter advances by one and every other row keeps its value |
| Schema.Table.Put | app/Http/Controllers/ActivityController.php:129 | `update` of an existing row stores the new row under its id; the ids, the counter and every other row stay as they were |
| Schema.Table.Remove | app/Http/Controllers/ActivityController.php:167 | `delete` drops exactly that id, leaves every other row as it was, and never hands the counter back |
| Schema.Ascending | app/Models/Activity.php:35-38 | the order the model fixes for the `children` relation: the child ids strictly ascending, each exactly once |
| Schema.Descending | app/Http/Controllers/ActivityController.php:24 | `orderByDesc('id')`: exactly the stored ids, strictly descending |
| Schema.Listing | app/Http/Controllers/BuildingController.php:25 | `orderByDesc('id')->get()` lists every row once with its own data, ids strictly decreasing |
| Hierarchy.ChildIds | app/Models/Activity.php:35-38 | `children` lists exactly the activities whose `parent_id` is the given id, each once, in the model's ascending order |
| Hierarchy.AncestorShift | app/Models/Activity.php:30-33 | going up `n + 1` generations from a row is going up `n` from its parent |
| Hierarchy.ReachesThroughParent | app/Models/Activity.php:30-33 | a child of a row `n` generations below `x` is `n + 1` generations below `x` |
| Hierarchy.ReachesThroughChild | app/Models/Activity.php:35-38 | a row `n` generations below a child of `x` is `n + 1` generations below `x` |
| Hierarchy.ChildOnPath | app/Models/Activity.php:35-38 | every proper descendant of `x` is reached through one child of `x` |
| Hierarchy.AllChildActivityIds | app/Http/Controllers/OrganizationController.php:414-421 | `getAllChildActivityIds`: the result starts with the activity's own id and holds only stored ids; what it collects is stated by Hierarchy.WalkIsSubtree and Hierarchy.WalkDistinct |
| Hierarchy.MergeAll | app/Http/Controllers/OrganizationController.php:417-419 | the `foreach` with `array_merge` over the children returns only stored ids; its membership is stated by Hierarchy.MergeAllMember |
| Hierarchy.MergeAllMember | app/Http/Controllers/OrganizationController.php:417-419 | the merged child walks contain an id exactly when one child's walk does |
| Hierarchy.WalkSound | app/Http/Controllers/OrganizationController.php:414-421 | every id the recursive walk returns is the activity or one of its descendants |
| Hierarchy.WalkSoundAll | app/Http/Controllers/OrganizationController.php:414-421 | the same for all returned ids at once |
| Hierarchy.WalkComplete | app/Http/Controllers/OrganizationController.php:414-421 | every descendant, at any depth, is returned by the recursive walk |
| Hierarchy.WalkIsSubtree | app/Http/Controllers/OrganizationController.php:414-421 | the walk starts with the activity's own id and contains exactly the activity and its descendants |
| Hierarchy.ChainRises | app/Models/Activity.php:30-33 | on a forest the rank rises strictly going up the `parent_id` chain |
| Hierarchy.SiblingNotAncestor | app/Models/Activity.php:35-38 | on a forest a descendant of one child is never a descendant of a sibling |
| Hierarchy.DistinctConcat | app/Http/Controllers/OrganizationController.php:418 | `array_merge` of two duplicate-free lists with no common id has no duplicate |
| Hierarchy.WalkDistinct | app/Http/Controllers/OrganizationController.php:414-421 | on a forest the recursive walk lists no id twice |
| Hierarchy.MergeDistinct | app/Http/Controllers/OrganizationController.php:417-419 | the siblings' walks together list no id twice |
| Hierarchy.LimitedDepthChildActivityIds | app/Http/Controllers/OrganizationController.php:507-516 | `getLimitedDepthChildActivityIds`: the result starts with the activity's own id and holds only stored ids; what it collects is stated by Hierarchy.LimitedIsWithinDepth |
| Hierarchy.MergeLimited | app/Http/Controllers/OrganizationController.php:511-513 | the guarded `foreach` returns only stored ids; its membership is stated by Hierarchy.MergeLimitedMember |
| Hierarchy.MergeLimitedMember | app/Http/Controllers/OrganizationController.php:511-513 | the merged limited child walks contain an id exactly when one child's limited walk does |
| Hierarchy.LimitedSound | app/Http/Controllers/OrganizationController.php:507-516 | every id the limited walk returns is the activity, or a descendant whose parent lies at a depth below `maxDepth` |
| Hierarchy.LimitedComplete | app/Http/Controllers/OrganizationController.php:507-516 | every such descendant is returned |
| Hierarchy.LimitedIsWithinDepth | app/Http/Controllers/OrganizationController.php:507-516 | the limited walk starts with the activity and holds exactly the activity and its descendants at most `maxDepth - currentDepth` generations down, on any table including a cyclic one |
| Hierarchy.SearchDepthReachesGrandchildren | app/Http/Controllers/OrganizationController.php:496 | with bound 3 from depth 1 the walk holds exactly the activity, its children and its grandchildren |
| Hierarchy.LimitedWithinAll | app/Http/Controllers/OrganizationController.php:507-516 | the limited walk never returns an id the recursive walk misses |
| Hierarchy.LimitedMonotone | app/Http/Controllers/OrganizationController.php:510 | raising `maxDepth` never loses an id |
| Hierarchy.LimitedEqualsAll | app/Http/Controllers/OrganizationController.php:507-516 | when the tree's height fits the bound, the limited walk equals the recursive walk as a list, both taking children in the same order |
| Hierarchy.MergeLimitedEqualsAll | app/Http/Controllers/OrganizationController.php:511-513 | the same for a list of siblings |
| Hierarchy.ParentBeforeChildIsAcyclic | database/seeders/DatabaseSeeder.php:50-58 | drawing each `parent_id` from earlier ids, as the seeder does, always yields a forest |
| BuildingUpdateRequest.Authorize | app/Http/Requests/BuildingUpdateRequest.php:23-26 | every caller is authorized |
| BuildingUpdateRequest.Passes | app/Http/Requests/BuildingUpdateRequest.php:33-40 | `rules()` as a predicate with no contract of its own: each present field obeys its rule; its meaning is stated by BuildingUpdateRequest.RulesKeepExactlyLocated |
| BuildingUpdateRequest.Apply | app/Http/Controllers/BuildingController.php:132 | `$building->update($request->validated())` as a definition with no contract of its own: the sent fields replace the stored ones; stated by BuildingUpdateRequest.EmptyPatchPasses and BuildingUpdateRequest.RulesKeepExactlyLocated |
| BuildingUpdateRequest.EmptyPatchPasses | app/Http/Requests/BuildingUpdateRequest.php:36-38 | every field is `sometimes`: an empty body validates and changes nothing |
| BuildingUpdateRequest.RulesKeepExactlyLocated | app/Http/Requests/BuildingUpdateRequest.php:33-40 | a request passes the rules if and only if the updated building still has an address of at most 255 characters and coordinates within bounds |
| BuildingController.Index | app/Http/Controllers/BuildingController.php:23-27 | 200 with every building, newest id first |
| BuildingController.StoreAccepts | app/Http/Controllers/BuildingController.php:52-56 | the `validate` array as a predicate with no contract of its own: a filled address of at most 255 characters and both coordinates present and within bounds; BuildingController.Store answers 422 exactly when it fails |
| BuildingController.Store | app/Http/Controllers/BuildingController.php:50-61 | 422 with nothing changed unless the address is filled and at most 255 characters and both coordinates are within bounds; otherwise 201 with the new id and the inserted row |
| BuildingController.Show | app/Http/Controllers/BuildingController.php:86-95 | 404 for an unknown id, else 200 with the row |
| BuildingController.Update | app/Http/Controllers/BuildingController.php:124-135 | 422 for a request that fails the rules even when the id is unknown, then 404, then only the sent fields change |
| BuildingController.Destroy | app/Http/Controllers/BuildingController.php:160-171 | 404, or 200 with exactly that row removed, without any check on the organizations in it |
| ActivityController.NewParent | app/Http/Controllers/ActivityController.php:126-129 | an absent `parent_id` keeps the parent, null clears it, an id sets it |
| ActivityController.ParentAccepted | app/Http/Controllers/ActivityController.php:51 | `nullable|exists:activities,id` as a predicate with no contract of its own: a given id names a stored activity |
| ActivityController.StoreAccepts | app/Http/Controllers/ActivityController.php:49-52 | `store`'s `validate` array as a predicate with no contract of its own; ActivityController.Store answers 422 exactly when it fails |
| ActivityController.UpdateAccepts | app/Http/Controllers/ActivityController.php:124-127 | `update`'s `validate` array as a predicate with no contract of its own; ActivityController.Update answers 422 for a known id exactly when it fails |
| ActivityController.Patched | app/Http/Controllers/ActivityController.php:129 | only the fields present in the request change |
| ActivityController.Index | app/Http/Controllers/ActivityController.php:22-25 | 200 with every activity, newest id first |
| ActivityController.Store | app/Http/Controllers/ActivityController.php:47-57 | 422 with nothing changed unless the name is filled and at most 255 characters and a given parent exists; otherwise 201, and an absent parent is stored as null |
| ActivityController.Show | app/Http/Controllers/ActivityController.php:82-85 | 404 for an unknown id, else 200 with the row |
| ActivityController.Update | app/Http/Controllers/ActivityController.php:118-132 | 404 first, then 422 for a name over 255 characters or an unknown parent, else the patched row is stored |
| ActivityController.Destroy | app/Http/Controllers/ActivityController.php:156-169 | 404 with nothing changed, links included; 400 with nothing changed while the activity has a child; otherwise 200 and the row is removed, which keeps every `parent_id` resolvable; only on that delete may its link rows go |
| ActivityController.StoreKeepsAcyclic | app/Http/Controllers/ActivityController.php:47-57 | creating an activity keeps the forest acyclic |
| ActivityController.DestroyKeepsAcyclic | app/Http/Controllers/ActivityController.php:167 | deleting an activity keeps the forest acyclic |
| ActivityController.UpdateWithoutNewParentKeepsAcyclic | app/Http/Controllers/ActivityController.php:124-129 | an update that leaves `parent_id` out or sets it to null keeps the forest acyclic |
| ActivityController.UpdateAcceptsSelfParent | app/Http/Controllers/ActivityController.php:126 | the rules accept an activity as its own parent, and the result is cyclic |
| ActivityController.UpdateAcceptsDescendantParent | app/Http/Controllers/ActivityController.php:126 | the rules accept an activity's child as its new parent, and the result is cyclic |
| ActivityController.ForestUpdateAccepts | app/Http/Controllers/ActivityController.php:126 | the corrected rule, as a predicate with no contract of its own: the update rules, and a new parent outside the activity's own subtree; ActivityController.ForestUpdateKeepsAcyclic states what it guarantees |
| ActivityController.ForestUpdateKeepsAcyclic | app/Http/Controllers/ActivityController.php:124-129 | with a parent required to lie outside the activity's own subtree, every update keeps the forest acyclic |
| OrganizationController.ActivitiesOf | app/Models/Organization.php:39-42 | an organization's activities are exactly the activity ids of its link rows |
| OrganizationController.Sync | app/Http/Controllers/OrganizationController.php:113 | after `sync` the organization is linked to exactly the given ids, and no other organization's links change |
| OrganizationController.LinkedTo | app/Http/Controllers/OrganizationController.php:405-409 | exactly the stored organizations with a link row to one of the given activities, each with its own row |
| OrganizationController.InBuilding | app/Models/Building.php:33-36 | exactly the stored organizations whose `building_id` is the building |
| OrganizationController.Patched | app/Http/Controllers/OrganizationController.php:193 | only the fillable fields present in the request change |
| OrganizationController.StoreAccepts | app/Http/Controllers/OrganizationController.php:98-105 | `store`'s `validate` array as a predicate with no contract of its own; OrganizationController.Store answers 422 exactly when it fails |
| OrganizationController.UpdateAccepts | app/Http/Controllers/OrganizationController.php:185-191 | `update`'s `validate` array as a predicate with no contract of its own; OrganizationController.Update answers 422 for a known id exactly when it fails |
| OrganizationController.Index | app/Http/Controllers/OrganizationController.php:55-58 | every organization, newest id first |
| OrganizationController.Store | app/Http/Controllers/OrganizationController.php:96-116 | 422 with nothing changed unless the name, a non-empty phone list, an existing building and a non-empty list of existing activities are given; otherwise 201, the row is inserted and linked to exactly those activities |
| OrganizationController.Show | app/Http/Controllers/OrganizationController.php:137-146 | 404 for an unknown id, else the row |
| OrganizationController.Update | app/Http/Controllers/OrganizationController.php:177-200 | 404 first, then 422, then the present fields change; links are re-synced only when `activities` is sent, and an empty list removes them all |
| OrganizationController.Destroy | app/Http/Controllers/OrganizationController.php:229-240 | 404 with nothing changed, links included; otherwise 200 with the row removed, and only then may its link rows go |
| OrganizationController.ByBuilding | app/Http/Controllers/OrganizationController.php:268-275 | 404 for an unknown building, else exactly the organizations in it |
| OrganizationController.ByActivity | app/Http/Controllers/OrganizationController.php:303-310 | 404 for an unknown activity, else exactly the organizations linked to it |
| OrganizationController.SearchByActivity | app/Http/Controllers/OrganizationController.php:395-412 | on a forest: 404 for an unknown activity, else exactly the organizations linked to the activity or to any descendant |
| OrganizationController.SearchWithLimitedActivityDepth | app/Http/Controllers/OrganizationController.php:489-505 | 404 for an unknown activity, else exactly the organizations linked to the activity, a child or a grandchild |
| OrganizationController.LinkedToMonotone | app/Http/Controllers/OrganizationController.php:405-409 | more activities never yield fewer organizations |
| OrganizationController.SearchesNest | app/Http/Controllers/OrganizationController.php:303-310 | the exact search finds a subset of the limited search, which finds a subset of the recursive search |
| OrganizationController.ShallowSearchesAgree | app/Http/Controllers/OrganizationController.php:496 | when nothing lies more than two generations down, the limited and recursive searches agree |
| OrganizationController.SyncThenActivitiesOf | app/Http/Controllers/OrganizationController.php:196 | syncing one organization leaves every other organization's activities as they were |
| OrganizationController.SampleSearches | app/Http/Controllers/OrganizationController.php:395-412 | a four-level chain: asked about the root, the exact search finds nobody, the limited search only the organization linked to the child, and the recursive search also the one linked to the great-grandchild |

## Left out

- `organizationsInRadius`: it filters through MySQL's `ST_Distance_Sphere` on floating point. Only its km-to-metre scaling (`radius * 1000`) is documented here; the search itself is not modelled.
- `searchOrganizationByName`: a `LIKE '%name%'` match that depends on the column collation and on `%`/`_` wildcards in the name.
- Eager-loaded relations (`with`, `load`): response bodies carry the rows only. Related rows can be derived from the tables.
- Timestamps (`created_at`, `updated_at`) and the response messages.
- `phone_numbers` are an opaque list of strings. `store` JSON-encodes the list before the `array` cast encodes it again, while `update` does not. The difference in stored representation is not modelled.
- The request-normalising middleware (trimming strings, turning empty strings into null) is not part of this model. Inputs are the values the rules see.
- OrganizationController.SearchByActivity: requires the whole `activities` table to be acyclic. The source's recursion loops exactly when the searched activity itself lies on a cycle (see Findings). A cycle elsewhere, for example 2 and 3 each the parent of the other while 1 is a childless root, leaves a search for 1 answered normally. The model does not cover that state.
- Hierarchy.ChildIds, Schema.Ascending: `hasMany` has no `orderBy`, so the source lists children in whatever order the database returns. The model fixes ascending id order. The sets of ids the two walks collect, and every search result, do not depend on this choice. The order and the duplicate-freedom of the walks' lists, as stated by Hierarchy.WalkDistinct and Hierarchy.LimitedEqualsAll, are stated for this order.
- BuildingController.Destroy, ActivityController.Destroy, OrganizationController.Destroy: the migrations are not part of this model, so the foreign keys on `organizations.building_id` and on the link table's columns are unknown. A restricting key would make a delete fail with a database error; a cascading one would remove dependent rows. The model deletes only the row itself and leaves organizations untouched. Link rows are the exception: for ActivityController.Destroy and OrganizationController.Destroy the contract allows, on a successful delete only, either no link change or the removal of exactly the deleted row's links.
- OrganizationController.ByBuilding, ByActivity, SearchByActivity, SearchWithLimitedActivityDepth: the payload is a map by id, because the source's query imposes no order.
- Route-model binding's 404 in `show`/`update` of activities is modelled as a lookup. The `if (!$activity)` guard after it can never fire.
- The status code of a successful activity delete is modelled as the 200 the code returns. The API documentation says 204.

## Findings

| source | as written | input that shows it | evidently intended | confidence | as-written member | corrected member |
|---|---|---|---|---|---|---|
| app/Http/Controllers/ActivityController.php:124-129 | `parent_id` need only name an existing activity, so an activity can become its own ancestor; `getAllChildActivityIds` then recurses without end | update activity 1 (root) with `parent_id` 2, where activity 2 is a child of 1; or update 1 with `parent_id` 1 | a new parent must lie outside the activity's own subtree, so the activities stay a forest | not executed | ActivityController.UpdateAcceptsDescendantParent | ActivityController.ForestUpdateKeepsAcyclic |
