/**
 * The `/organizations` resource and its searches: by building, by activity,
 * by an activity and all its descendants, and by an activity and the two
 * generations below it.
 */
module OrganizationController {
  import opened Schema
  import opened Http
  import Validation
  import Hierarchy

  /** The `max_depth` passed to the limited walk by the limited search. */
  const SearchDepth: int := 3

  /** The activities linked to organization `o`. */
  function ActivitiesOf(links: set<(int, int)>, o: int): (s: set<int>)
    ensures forall a :: a in s <==> (o, a) in links
  {
    set l | l in links && l.0 == o :: l.1
  }

  /** `sync`: the links of `o` become exactly `ids`; every other organization keeps its links. */
  function Sync(links: set<(int, int)>, o: int, ids: set<int>): (r: set<(int, int)>)
    ensures ActivitiesOf(r, o) == ids
    ensures forall l: (int, int) :: l.0 != o ==> (l in r <==> l in links)
  {
    var r := (set l | l in links && l.0 != o) + (set a | a in ids :: (o, a));
    assert forall a :: a in ids ==> (o, a) in r;
    r
  }

  function Ids(s: seq<int>): (r: set<int>)
    ensures forall a :: a in r <==> a in s
  {
    set a | a in s
  }

  /**
   * The organizations with a link row to one of the activities in `ids`:
   * the `whereIn('id', select organization_id … whereIn activity_id)` query,
   * and also what a `belongsToMany` relation of a single activity yields.
   */
  function LinkedTo(orgs: Table<Organization>, links: set<(int, int)>, ids: set<int>): (r: map<int, Organization>)
    ensures forall o :: o in r <==> o in orgs.rows && exists a :: a in ids && (o, a) in links
    ensures forall o :: o in r ==> r[o] == orgs.rows[o]
  {
    map o | o in orgs.rows && (exists a :: a in ids && (o, a) in links) :: orgs.rows[o]
  }

  /** `hasMany(Organization::class)` of a building. */
  function InBuilding(orgs: Table<Organization>, b: int): (r: map<int, Organization>)
    ensures forall o :: o in r <==> o in orgs.rows && orgs.rows[o].buildingId == b
    ensures forall o :: o in r ==> r[o] == orgs.rows[o]
  {
    map o | o in orgs.rows && orgs.rows[o].buildingId == b :: orgs.rows[o]
  }

  /**
   * `store`'s rules: name required|string|max:255; phone_numbers required|array
   * (hence non-empty); building_id required and an existing building;
   * activities required|array (non-empty), each an existing activity.
   */
  predicate StoreAccepts(db: Database, name: Option<string>, phones: Option<seq<string>>,
                         building: Option<int>, activities: Option<seq<int>>)
    reads db
  {
    && name.Some? && Validation.Filled(name.value) && Validation.FitsColumn(name.value)
    && phones.Some? && |phones.value| > 0
    && building.Some? && building.value in db.buildings.rows
    && activities.Some? && |activities.value| > 0
    && (forall a :: a in activities.value ==> a in db.activities.rows)
  }

  /** `update`'s rules: every field is optional; a present one obeys its rule. */
  predicate UpdateAccepts(db: Database, name: Option<string>, building: Option<int>, activities: Option<seq<int>>)
    reads db
  {
    && (name.Some? ==> Validation.FitsColumn(name.value))
    && (building.Some? ==> building.value in db.buildings.rows)
    && (activities.Some? ==> forall a :: a in activities.value ==> a in db.activities.rows)
  }

  /** `$organization->update($validated)`: present fillable fields replace the stored ones. */
  function Patched(o: Organization, name: Option<string>, phones: Option<seq<string>>, building: Option<int>): (p: Organization)
    ensures p.name == (if name.Some? then name.value else o.name)
    ensures p.phoneNumbers == (if phones.Some? then phones.value else o.phoneNumbers)
    ensures p.buildingId == (if building.Some? then building.value else o.buildingId)
  {
    Organization(
      if name.Some? then name.value else o.name,
      if phones.Some? then phones.value else o.phoneNumbers,
      if building.Some? then building.value else o.buildingId)
  }

  /** `index`: every organization, newest id first. */
  method Index(db: Database) returns (r: Response<seq<(int, Organization)>>)
    requires db.Valid()
    ensures r.status == OK && r.payload.Some? && ListsByIdDesc(db.organizations, r.payload.value)
  {
    r := Response(OK, Some(Listing(db.organizations)));
  }

  /** `store`: inserts the organization, then syncs its activities to the given list. */
  method Store(db: Database, name: Option<string>, phones: Option<seq<string>>,
               building: Option<int>, activities: Option<seq<int>>)
    returns (r: Response<(int, Organization)>)
    requires db.Valid()
    modifies db
    ensures db.Valid()
    ensures db.activities == old(db.activities) && db.buildings == old(db.buildings)
    ensures !old(StoreAccepts(db, name, phones, building, activities)) ==>
              r == Fail(Unprocessable) && db.organizations == old(db.organizations) && db.links == old(db.links)
    ensures old(StoreAccepts(db, name, phones, building, activities)) ==>
              var id := old(db.organizations.nextId);
              var o := Organization(name.value, phones.value, building.value);
              && r == Response(Created, Some((id, o)))
              && db.organizations == old(db.organizations).Insert(o)
              && db.links == Sync(old(db.links), id, Ids(activities.value))
  {
    if !StoreAccepts(db, name, phones, building, activities) {
      return Fail(Unprocessable);
    }
    var o := Organization(name.value, phones.value, building.value);
    var id := db.organizations.nextId;
    db.organizations := db.organizations.Insert(o);
    db.links := Sync(db.links, id, Ids(activities.value));
    r := Response(Created, Some((id, o)));
  }

  /** `show`: the organization, or 404. */
  method Show(db: Database, id: int) returns (r: Response<(int, Organization)>)
    requires db.Valid()
    ensures id !in db.organizations.rows ==> r == Fail(NotFound)
    ensures id in db.organizations.rows ==> r == Response(OK, Some((id, db.organizations.rows[id])))
  {
    if id !in db.organizations.rows {
      return Fail(NotFound);
    }
    r := Response(OK, Some((id, db.organizations.rows[id])));
  }

  /**
   * `update`: 404 before 422; the activities are re-synced only when the
   * request carries the field, and an empty list then removes every link.
   */
  method Update(db: Database, id: int, name: Option<string>, phones: Option<seq<string>>,
                building: Option<int>, activities: Option<seq<int>>)
    returns (r: Response<(int, Organization)>)
    requires db.Valid()
    modifies db
    ensures db.Valid()
    ensures db.activities == old(db.activities) && db.buildings == old(db.buildings)
    ensures id !in old(db.organizations.rows) ==>
              r == Fail(NotFound) && db.organizations == old(db.organizations) && db.links == old(db.links)
    ensures id in old(db.organizations.rows) && !old(UpdateAccepts(db, name, building, activities)) ==>
              r == Fail(Unprocessable) && db.organizations == old(db.organizations) && db.links == old(db.links)
    ensures id in old(db.organizations.rows) && old(UpdateAccepts(db, name, building, activities)) ==>
              var o := Patched(old(db.organizations.rows[id]), name, phones, building);
              && r == Response(OK, Some((id, o)))
              && db.organizations == old(db.organizations).Put(id, o)
              && db.links == (if activities.Some? then Sync(old(db.links), id, Ids(activities.value)) else old(db.links))
  {
    if id !in db.organizations.rows {
      return Fail(NotFound);
    }
    if !UpdateAccepts(db, name, building, activities) {
      return Fail(Unprocessable);
    }
    var o := Patched(db.organizations.rows[id], name, phones, building);
    db.organizations := db.organizations.Put(id, o);
    if activities.Some? {
      db.links := Sync(db.links, id, Ids(activities.value));
    }
    r := Response(OK, Some((id, o)));
  }

  /**
   * `destroy`: 404 for an unknown id, otherwise the row is deleted. Whether its
   * `organization_activity` rows go with it is decided by the schema, so both
   * outcomes are allowed.
   */
  method Destroy(db: Database, id: int) returns (r: Response<()>)
    requires db.Valid()
    modifies db
    ensures db.Valid()
    ensures db.activities == old(db.activities) && db.buildings == old(db.buildings)
    ensures id !in old(db.organizations.rows) ==>
              r == Fail(NotFound) && db.organizations == old(db.organizations) && db.links == old(db.links)
    ensures id in old(db.organizations.rows) ==>
              && r == Response(OK, None) && db.organizations == old(db.organizations).Remove(id)
              && (db.links == old(db.links) || db.links == set l | l in old(db.links) && l.0 != id)
  {
    if id !in db.organizations.rows {
      return Fail(NotFound);
    }
    db.organizations := db.organizations.Remove(id);
    r := Response(OK, None);
  }

  /** `organizationsByBuilding`: 404 for an unknown building, else the organizations in it. */
  method ByBuilding(db: Database, buildingId: int) returns (r: Response<map<int, Organization>>)
    requires db.Valid()
    ensures buildingId !in db.buildings.rows ==> r == Fail(NotFound)
    ensures buildingId in db.buildings.rows ==> r == Response(OK, Some(InBuilding(db.organizations, buildingId)))
  {
    if buildingId !in db.buildings.rows {
      return Fail(NotFound);
    }
    r := Response(OK, Some(InBuilding(db.organizations, buildingId)));
  }

  /** `organizationsByActivity`: 404 for an unknown activity, else the organizations linked to it alone. */
  method ByActivity(db: Database, activityId: int) returns (r: Response<map<int, Organization>>)
    requires db.Valid()
    ensures activityId !in db.activities.rows ==> r == Fail(NotFound)
    ensures activityId in db.activities.rows ==>
              r == Response(OK, Some(LinkedTo(db.organizations, db.links, {activityId})))
  {
    if activityId !in db.activities.rows {
      return Fail(NotFound);
    }
    r := Response(OK, Some(LinkedTo(db.organizations, db.links, {activityId})));
  }

  /**
   * `searchOrganizationsByActivity`: the organizations linked to the activity
   * or to any of its descendants. The model requires the whole table to be a forest.
   */
  method SearchByActivity(db: Database, activityId: int) returns (r: Response<map<int, Organization>>)
    requires db.Valid() && Hierarchy.Acyclic(db.activities.rows)
    ensures activityId !in db.activities.rows ==> r == Fail(NotFound)
    ensures activityId in db.activities.rows ==>
              r == Response(OK, Some(LinkedTo(db.organizations, db.links,
                                              Hierarchy.Subtree(db.activities.rows, activityId))))
  {
    if activityId !in db.activities.rows {
      return Fail(NotFound);
    }
    ghost var rank :| Hierarchy.Ranked(db.activities.rows, rank);
    var walk := Hierarchy.AllChildActivityIds(db.activities, activityId, rank);
    Hierarchy.WalkIsSubtree(db.activities, activityId, rank);
    forall y | y in walk ensures y in db.activities.rows {
      var n: nat :| Hierarchy.Reaches(db.activities.rows, activityId, y, n);
    }
    assert Ids(walk) == Hierarchy.Subtree(db.activities.rows, activityId);
    r := Response(OK, Some(LinkedTo(db.organizations, db.links, Ids(walk))));
  }

  /**
   * `searchOrganizationsWithLimitedActivityDepth`: the walk with bound 3 from
   * depth 1 stops at the grandchildren; it ends on any table, cyclic or not.
   */
  method SearchWithLimitedActivityDepth(db: Database, activityId: int) returns (r: Response<map<int, Organization>>)
    requires db.Valid()
    ensures activityId !in db.activities.rows ==> r == Fail(NotFound)
    ensures activityId in db.activities.rows ==>
              r == Response(OK, Some(LinkedTo(db.organizations, db.links,
                                              Hierarchy.Generations(db.activities.rows, activityId, 2))))
  {
    if activityId !in db.activities.rows {
      return Fail(NotFound);
    }
    var walk := Hierarchy.LimitedDepthChildActivityIds(db.activities, activityId, SearchDepth, 1);
    Hierarchy.SearchDepthReachesGrandchildren(db.activities, activityId);
    assert Ids(walk) == Hierarchy.Generations(db.activities.rows, activityId, 2);
    r := Response(OK, Some(LinkedTo(db.organizations, db.links, Ids(walk))));
  }

  // ---------------------------------------------------------------------------
  // How the three activity searches relate.

  /** Asking about more activities never yields fewer organizations. */
  lemma LinkedToMonotone(orgs: Table<Organization>, links: set<(int, int)>, s1: set<int>, s2: set<int>)
    requires s1 <= s2
    ensures LinkedTo(orgs, links, s1).Keys <= LinkedTo(orgs, links, s2).Keys
  {
  }

  /**
   * The exact search finds a subset of what the limited search finds, which
   * finds a subset of what the recursive search finds.
   */
  lemma SearchesNest(rows: map<int, Activity>, orgs: Table<Organization>, links: set<(int, int)>, x: int)
    requires x in rows
    ensures LinkedTo(orgs, links, {x}).Keys <= LinkedTo(orgs, links, Hierarchy.Generations(rows, x, 2)).Keys
    ensures LinkedTo(orgs, links, Hierarchy.Generations(rows, x, 2)).Keys
            <= LinkedTo(orgs, links, Hierarchy.Subtree(rows, x)).Keys
  {
    assert Hierarchy.Reaches(rows, x, x, 0);
    assert {x} <= Hierarchy.Generations(rows, x, 2);
    LinkedToMonotone(orgs, links, {x}, Hierarchy.Generations(rows, x, 2));
    LinkedToMonotone(orgs, links, Hierarchy.Generations(rows, x, 2), Hierarchy.Subtree(rows, x));
  }

  /** When nothing lies more than two generations below `x`, the limited and recursive searches agree. */
  lemma ShallowSearchesAgree(rows: map<int, Activity>, orgs: Table<Organization>, links: set<(int, int)>, x: int)
    requires forall y, n: nat :: Hierarchy.Reaches(rows, x, y, n) ==> n <= 2
    ensures LinkedTo(orgs, links, Hierarchy.Generations(rows, x, 2)) == LinkedTo(orgs, links, Hierarchy.Subtree(rows, x))
  {
    assert Hierarchy.Generations(rows, x, 2) == Hierarchy.Subtree(rows, x);
  }

  /** Syncing one organization leaves the activities of every other organization as they were. */
  lemma SyncThenActivitiesOf(links: set<(int, int)>, o: int, p: int, ids: set<int>)
    requires o != p
    ensures ActivitiesOf(Sync(links, o, ids), p) == ActivitiesOf(links, p)
  {
  }

  // ---------------------------------------------------------------------------
  // A small directory: Root (1) has Child (2), which has Grandchild (3), which
  // has Leaf (4); Acme (1) is linked to Child only and Deep (2) to Leaf only.

  function SampleActivities(): Table<Activity> {
    Table(map[1 := Activity("Root", None), 2 := Activity("Child", Some(1)),
              3 := Activity("Grandchild", Some(2)), 4 := Activity("Leaf", Some(3))], 5)
  }

  function SampleOrganizations(): Table<Organization> {
    Table(map[1 := Organization("Acme", ["1-111-111"], 1), 2 := Organization("Deep", ["2-222-222"], 1)], 3)
  }

  function SampleLinks(): set<(int, int)> {
    {(1, 2), (2, 4)}
  }

  /** Asked about Root, the exact search finds nobody, the limited one Acme, the recursive one both. */
  lemma SampleSearches()
    ensures LinkedTo(SampleOrganizations(), SampleLinks(), {1}).Keys == {}
    ensures LinkedTo(SampleOrganizations(), SampleLinks(), Hierarchy.Generations(SampleActivities().rows, 1, 2)).Keys == {1}
    ensures LinkedTo(SampleOrganizations(), SampleLinks(), Hierarchy.Subtree(SampleActivities().rows, 1)).Keys == {1, 2}
  {
    var rows := SampleActivities().rows;
    assert Hierarchy.Ancestor(rows, 2, 1) == Some(1);
    assert Hierarchy.Reaches(rows, 1, 2, 1);
    assert Hierarchy.Ancestor(rows, 4, 1) == Some(3);
    assert Hierarchy.Ancestor(rows, 4, 2) == Some(2);
    assert Hierarchy.Ancestor(rows, 4, 3) == Some(1);
    assert Hierarchy.Reaches(rows, 1, 4, 3);
    assert 4 !in Hierarchy.Generations(rows, 1, 2) by {
      forall n: nat | n <= 2 ensures Hierarchy.Ancestor(rows, 4, n) != Some(1) {
        if n == 0 {
        } else if n == 1 {
        } else {
        }
      }
    }
  }
}
