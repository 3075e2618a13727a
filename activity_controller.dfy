/** The `/activities` resource: list, create, show, update and delete. */
module ActivityController {
  import opened Schema
  import opened Http
  import Validation
  import Hierarchy

  /** The `parent_id` field of a request: absent, an explicit null, or an id. */
  datatype ParentField = Missing | Null | ParentId(id: int)

  /** `nullable|exists:activities,id`: a given id must name an activity. */
  predicate ParentAccepted(t: Table<Activity>, parent: ParentField) {
    parent.ParentId? ==> parent.id in t.rows
  }

  /** `store`'s rules: name required|string|max:255, and the parent rule. */
  predicate StoreAccepts(t: Table<Activity>, name: Option<string>, parent: ParentField) {
    && name.Some? && Validation.Filled(name.value) && Validation.FitsColumn(name.value)
    && ParentAccepted(t, parent)
  }

  /** `update`'s rules: name sometimes|string|max:255, and the parent rule. */
  predicate UpdateAccepts(t: Table<Activity>, name: Option<string>, parent: ParentField) {
    && (name.Some? ==> Validation.FitsColumn(name.value))
    && ParentAccepted(t, parent)
  }

  /** The `parent_id` after a mass assignment: an absent field keeps what was there. */
  function NewParent(current: Option<int>, parent: ParentField): (p: Option<int>)
    ensures parent.Missing? ==> p == current
    ensures parent.Null? ==> p.None?
    ensures parent.ParentId? ==> p == Some(parent.id)
  {
    match parent
    case Missing => current
    case Null => None
    case ParentId(id) => Some(id)
  }

  /** `$activity->update($validated)`: only the fields present in the request change. */
  function Patched(a: Activity, name: Option<string>, parent: ParentField): (b: Activity)
    ensures b.name == (if name.Some? then name.value else a.name)
    ensures b.parentId == NewParent(a.parentId, parent)
  {
    Activity(if name.Some? then name.value else a.name, NewParent(a.parentId, parent))
  }

  /** `index`: every activity, newest id first. */
  method Index(db: Database) returns (r: Response<seq<(int, Activity)>>)
    requires db.Valid()
    ensures r.status == OK && r.payload.Some? && ListsByIdDesc(db.activities, r.payload.value)
  {
    r := Response(OK, Some(Listing(db.activities)));
  }

  /** `store`: a validated activity is inserted, a missing `parent_id` stored as null. */
  method Store(db: Database, name: Option<string>, parent: ParentField) returns (r: Response<(int, Activity)>)
    requires db.Valid()
    modifies db
    ensures db.Valid()
    ensures db.buildings == old(db.buildings) && db.organizations == old(db.organizations) && db.links == old(db.links)
    ensures !StoreAccepts(old(db.activities), name, parent) ==>
              r == Fail(Unprocessable) && db.activities == old(db.activities)
    ensures StoreAccepts(old(db.activities), name, parent) ==>
              var a := Activity(name.value, NewParent(None, parent));
              && r == Response(Created, Some((old(db.activities.nextId), a)))
              && db.activities == old(db.activities).Insert(a)
  {
    if !StoreAccepts(db.activities, name, parent) {
      return Fail(Unprocessable);
    }
    var a := Activity(name.value, NewParent(None, parent));
    var id := db.activities.nextId;
    db.activities := db.activities.Insert(a);
    r := Response(Created, Some((id, a)));
  }

  /** `show`: route-model binding answers 404 for an unknown id. */
  method Show(db: Database, id: int) returns (r: Response<(int, Activity)>)
    requires db.Valid()
    ensures id !in db.activities.rows ==> r == Fail(NotFound)
    ensures id in db.activities.rows ==> r == Response(OK, Some((id, db.activities.rows[id])))
  {
    if id !in db.activities.rows {
      return Fail(NotFound);
    }
    r := Response(OK, Some((id, db.activities.rows[id])));
  }

  /** `update`: 404 from the binding comes before 422 from validation. */
  method Update(db: Database, id: int, name: Option<string>, parent: ParentField) returns (r: Response<(int, Activity)>)
    requires db.Valid()
    modifies db
    ensures db.Valid()
    ensures db.buildings == old(db.buildings) && db.organizations == old(db.organizations) && db.links == old(db.links)
    ensures id !in old(db.activities.rows) ==> r == Fail(NotFound) && db.activities == old(db.activities)
    ensures id in old(db.activities.rows) && !UpdateAccepts(old(db.activities), name, parent) ==>
              r == Fail(Unprocessable) && db.activities == old(db.activities)
    ensures id in old(db.activities.rows) && UpdateAccepts(old(db.activities), name, parent) ==>
              var a := Patched(old(db.activities.rows[id]), name, parent);
              && r == Response(OK, Some((id, a)))
              && db.activities == old(db.activities).Put(id, a)
  {
    if id !in db.activities.rows {
      return Fail(NotFound);
    }
    if !UpdateAccepts(db.activities, name, parent) {
      return Fail(Unprocessable);
    }
    var a := Patched(db.activities.rows[id], name, parent);
    db.activities := db.activities.Put(id, a);
    r := Response(OK, Some((id, a)));
  }

  /**
   * `destroy`: 404 for an unknown id, 400 while the activity has children,
   * otherwise the row is deleted. Whether its `organization_activity` rows go
   * with it is decided by the schema, so both outcomes are allowed.
   */
  method Destroy(db: Database, id: int) returns (r: Response<()>)
    requires db.Valid()
    modifies db
    ensures db.Valid()
    ensures db.buildings == old(db.buildings) && db.organizations == old(db.organizations)
    ensures id !in old(db.activities.rows) ==>
              r == Fail(NotFound) && db.activities == old(db.activities) && db.links == old(db.links)
    ensures id in old(db.activities.rows) && Hierarchy.ChildSet(old(db.activities.rows), id) != {} ==>
              r == Fail(BadRequest) && db.activities == old(db.activities) && db.links == old(db.links)
    ensures id in old(db.activities.rows) && Hierarchy.ChildSet(old(db.activities.rows), id) == {} ==>
              && r == Response(OK, None) && db.activities == old(db.activities).Remove(id)
              && (db.links == old(db.links) || db.links == set l | l in old(db.links) && l.1 != id)
  {
    if id !in db.activities.rows {
      return Fail(NotFound);
    }
    if Hierarchy.ChildSet(db.activities.rows, id) != {} {
      return Fail(BadRequest);
    }
    assert forall k :: k in db.activities.rows && db.activities.rows[k].parentId == Some(id) ==>
      k in Hierarchy.ChildSet(db.activities.rows, id);
    db.activities := db.activities.Remove(id);
    r := Response(OK, None);
  }

  // ---------------------------------------------------------------------------
  // What each write does to the shape of the forest.

  /** A new activity hangs below an existing one (or is a root): the forest stays a forest. */
  lemma StoreKeepsAcyclic(t: Table<Activity>, name: Option<string>, parent: ParentField)
    requires t.WellFormed() && ParentsExist(t.rows) && Hierarchy.Acyclic(t.rows)
    requires StoreAccepts(t, name, parent)
    ensures Hierarchy.Acyclic(t.Insert(Activity(name.value, NewParent(None, parent))).rows)
  {
    var rank :| Hierarchy.Ranked(t.rows, rank);
    var u := t.Insert(Activity(name.value, NewParent(None, parent)));
    var rank' := (map k | k in t.rows :: rank[k] + 1)[t.nextId := 0];
    assert Hierarchy.Ranked(u.rows, rank');
  }

  /** Deleting an activity never creates a cycle. */
  lemma DestroyKeepsAcyclic(t: Table<Activity>, id: int)
    requires Hierarchy.Acyclic(t.rows)
    ensures Hierarchy.Acyclic(t.Remove(id).rows)
  {
    var rank :| Hierarchy.Ranked(t.rows, rank);
    assert Hierarchy.Ranked(t.Remove(id).rows, rank);
  }

  /** An update that leaves `parent_id` alone or clears it keeps the forest a forest. */
  lemma UpdateWithoutNewParentKeepsAcyclic(t: Table<Activity>, id: int, name: Option<string>, parent: ParentField)
    requires id in t.rows && Hierarchy.Acyclic(t.rows)
    requires !parent.ParentId?
    ensures Hierarchy.Acyclic(t.Put(id, Patched(t.rows[id], name, parent)).rows)
  {
    var rank :| Hierarchy.Ranked(t.rows, rank);
    assert Hierarchy.Ranked(t.Put(id, Patched(t.rows[id], name, parent)).rows, rank);
  }

  // ---------------------------------------------------------------------------
  // `update` accepts any existing activity as the new parent, its own subtree included.

  /** An activity may be made its own parent. */
  lemma UpdateAcceptsSelfParent()
    ensures var t := Table(map[1 := Activity("Root", None)], 2);
            && UpdateAccepts(t, None, ParentId(1))
            && !Hierarchy.Acyclic(t.Put(1, Patched(t.rows[1], None, ParentId(1))).rows)
  {
  }

  /** An activity may be moved below its own child, closing a two-node cycle. */
  lemma UpdateAcceptsDescendantParent()
    ensures var t := Table(map[1 := Activity("Root", None), 2 := Activity("Child", Some(1))], 3);
            && UpdateAccepts(t, None, ParentId(2))
            && !Hierarchy.Acyclic(t.Put(1, Patched(t.rows[1], None, ParentId(2))).rows)
  {
  }

  /** The rule `update` evidently means: a new parent must lie outside the activity's own subtree. */
  ghost predicate ForestUpdateAccepts(t: Table<Activity>, id: int, name: Option<string>, parent: ParentField) {
    && UpdateAccepts(t, name, parent)
    && (parent.ParentId? ==> !Hierarchy.InSubtree(t.rows, id, parent.id))
  }

  /**
   * Under that rule the forest stays a forest: the moved subtree keeps its
   * ranks and everything outside it is lifted above the subtree's root.
   */
  lemma ForestUpdateKeepsAcyclic(t: Table<Activity>, id: int, name: Option<string>, parent: ParentField)
    requires id in t.rows && Hierarchy.Acyclic(t.rows)
    requires ForestUpdateAccepts(t, id, name, parent)
    ensures Hierarchy.Acyclic(t.Put(id, Patched(t.rows[id], name, parent)).rows)
  {
    var rank :| Hierarchy.Ranked(t.rows, rank);
    var u := t.Put(id, Patched(t.rows[id], name, parent)).rows;
    var lift := rank[id] + 1;
    var rank' := map k | k in t.rows :: if Hierarchy.InSubtree(t.rows, id, k) then rank[k] else rank[k] + lift;
    assert Hierarchy.Reaches(t.rows, id, id, 0);
    forall k | k in u && u[k].parentId.Some? && u[k].parentId.value in u
      ensures rank'[k] < rank'[u[k].parentId.value]
    {
      var q := u[k].parentId.value;
      if k == id {
        if parent.Missing? {
          // The old parent of `id` is not below `id`, since the ranks fall along every chain.
          if Hierarchy.InSubtree(t.rows, id, q) {
            var n: nat :| Hierarchy.Reaches(t.rows, id, q, n);
            Hierarchy.ReachesThroughParent(t.rows, id, q, id, n);
            Hierarchy.ChainRises(t.rows, rank, id, 0, n + 1);
          }
        }
      } else {
        assert u[k] == t.rows[k];
        if Hierarchy.InSubtree(t.rows, id, k) {
          var n: nat :| Hierarchy.Reaches(t.rows, id, k, n);
          assert n != 0;
          Hierarchy.AncestorShift(t.rows, k, q, n - 1);
          assert Hierarchy.Reaches(t.rows, id, q, n - 1);
        } else if Hierarchy.InSubtree(t.rows, id, q) {
          var n: nat :| Hierarchy.Reaches(t.rows, id, q, n);
          Hierarchy.ReachesThroughParent(t.rows, id, q, k, n);
        }
      }
    }
    assert Hierarchy.Ranked(u, rank');
  }
}
