/**
 * The relational store behind the directory service: the `activities`,
 * `buildings` and `organizations` tables, each with its auto-increment
 * counter, and the `organization_activity` link table.
 */
module Schema {
  import Validation

  datatype Option<+T> = None | Some(value: T)

  /** A row of `activities`; a null `parent_id` makes it a root of the forest. */
  datatype Activity = Activity(name: string, parentId: Option<int>)

  /** A row of `buildings`; coordinates are exact rationals. */
  datatype Building = Building(address: string, latitude: real, longitude: real)

  /** A row of `organizations`; `phone_numbers` is the list of strings the client sent. */
  datatype Organization = Organization(name: string, phoneNumbers: seq<string>, buildingId: int)

  /** A table: rows keyed by primary key, and the next value of its auto-increment counter. */
  datatype Table<T> = Table(rows: map<int, T>, nextId: nat) {

    /** Every key was handed out by the counter, which starts at 1. */
    ghost predicate WellFormed() {
      1 <= nextId && forall k :: k in rows ==> 1 <= k < nextId
    }

    /** INSERT: the new row gets the counter's value as its id, which no row has yet. */
    function Insert(row: T): (t: Table<T>)
      ensures WellFormed() ==> nextId !in rows && t.WellFormed()
      ensures t.rows.Keys == rows.Keys + {nextId} && t.rows[nextId] == row
      ensures t.nextId == nextId + 1
      ensures forall k :: k in rows && k != nextId ==> t.rows[k] == rows[k]
    {
      Table(rows[nextId := row], nextId + 1)
    }

    /** UPDATE of one existing row. */
    function Put(id: int, row: T): (t: Table<T>)
      requires id in rows
      ensures WellFormed() ==> t.WellFormed()
      ensures t.rows.Keys == rows.Keys && t.rows[id] == row
      ensures t.nextId == nextId
      ensures forall k :: k in rows && k != id ==> t.rows[k] == rows[k]
    {
      Table(rows[id := row], nextId)
    }

    /** DELETE of one row; the counter is not given back. */
    function Remove(id: int): (t: Table<T>)
      ensures WellFormed() ==> t.WellFormed()
      ensures t.rows.Keys == rows.Keys - {id}
      ensures t.nextId == nextId
      ensures forall k :: k in t.rows ==> t.rows[k] == rows[k]
    {
      Table(rows - {id}, nextId)
    }
  }

  /** The members of `s` below `n`, smallest first. */
  function Ascending(s: set<int>, n: nat): (r: seq<int>)
    ensures forall i, j :: 0 <= i < j < |r| ==> r[i] < r[j]
    ensures forall k :: k in r <==> k in s && 0 <= k < n
  {
    if n == 0 then []
    else
      var below := Ascending(s, n - 1);
      assert forall i :: 0 <= i < |below| ==> below[i] < n - 1 by {
        forall i | 0 <= i < |below| ensures below[i] < n - 1 {
          assert below[i] in below;
        }
      }
      below + (if n - 1 in s then [n - 1] else [])
  }

  /** The members of `s` below `n`, largest first. */
  function Descending(s: set<int>, n: nat): (r: seq<int>)
    ensures forall i, j :: 0 <= i < j < |r| ==> r[i] > r[j]
    ensures forall k :: k in r <==> k in s && 0 <= k < n
  {
    if n == 0 then []
    else
      var below := Descending(s, n - 1);
      assert forall i :: 0 <= i < |below| ==> below[i] < n - 1 by {
        forall i | 0 <= i < |below| ensures below[i] < n - 1 {
          assert below[i] in below;
        }
      }
      (if n - 1 in s then [n - 1] else []) + below
  }

  /** `r` lists every row of `t` with its id, ids strictly decreasing. */
  ghost predicate ListsByIdDesc<T>(t: Table<T>, r: seq<(int, T)>) {
    && (forall i, j :: 0 <= i < j < |r| ==> r[i].0 > r[j].0)
    && (forall i :: 0 <= i < |r| ==> r[i].0 in t.rows && r[i].1 == t.rows[r[i].0])
    && (forall k :: k in t.rows ==> exists i :: 0 <= i < |r| && r[i].0 == k)
  }

  /** `orderByDesc('id')->get()`. */
  function Listing<T>(t: Table<T>): (r: seq<(int, T)>)
    requires t.WellFormed()
    ensures ListsByIdDesc(t, r)
  {
    var ks := Descending(t.rows.Keys, t.nextId);
    var r := seq(|ks|, i requires 0 <= i < |ks| => (ks[i], t.rows[ks[i]]));
    assert forall k :: k in t.rows ==> exists i :: 0 <= i < |r| && r[i].0 == k by {
      forall k | k in t.rows ensures exists i :: 0 <= i < |r| && r[i].0 == k {
        assert k in ks;
        var i :| 0 <= i < |ks| && ks[i] == k;
        assert r[i].0 == k;
      }
    }
    r
  }

  /** Referential integrity of `parent_id`: a non-null parent is a row of the table. */
  ghost predicate ParentsExist(rows: map<int, Activity>) {
    forall k :: k in rows && rows[k].parentId.Some? ==> rows[k].parentId.value in rows
  }

  /** What the building rules guarantee of a stored building. */
  ghost predicate Located(b: Building) {
    Validation.FitsColumn(b.address) && Validation.IsLatitude(b.latitude) && Validation.IsLongitude(b.longitude)
  }

  /** The shared database that every controller reads and writes. */
  class Database {
    var activities: Table<Activity>
    var buildings: Table<Building>
    var organizations: Table<Organization>
    /** Rows of `organization_activity`, as (organization_id, activity_id). */
    var links: set<(int, int)>

    ghost predicate Valid()
      reads this
    {
      && activities.WellFormed()
      && buildings.WellFormed()
      && organizations.WellFormed()
      && ParentsExist(activities.rows)
      && (forall k :: k in buildings.rows ==> Located(buildings.rows[k]))
    }

    /** An empty database; every counter starts at 1. */
    constructor ()
      ensures Valid()
      ensures activities == Table(map[], 1) && buildings == Table(map[], 1)
      ensures organizations == Table(map[], 1) && links == {}
    {
      activities := Table(map[], 1);
      buildings := Table(map[], 1);
      organizations := Table(map[], 1);
      links := {};
    }
  }
}
