/** The `/buildings` resource: list, create, show, update and delete. */
module BuildingController {
  import opened Schema
  import opened Http
  import Validation
  import BuildingUpdateRequest

  /** `store`'s rules: address required|string|max:255; latitude and longitude required|numeric|between. */
  predicate StoreAccepts(address: Option<string>, latitude: Option<real>, longitude: Option<real>) {
    && address.Some? && Validation.Filled(address.value) && Validation.FitsColumn(address.value)
    && latitude.Some? && Validation.IsLatitude(latitude.value)
    && longitude.Some? && Validation.IsLongitude(longitude.value)
  }

  /** `index`: every building, newest id first. */
  method Index(db: Database) returns (r: Response<seq<(int, Building)>>)
    requires db.Valid()
    ensures r.status == OK && r.payload.Some? && ListsByIdDesc(db.buildings, r.payload.value)
  {
    r := Response(OK, Some(Listing(db.buildings)));
  }

  /** `store`: a validated building is inserted and answered with 201. */
  method Store(db: Database, address: Option<string>, latitude: Option<real>, longitude: Option<real>)
    returns (r: Response<(int, Building)>)
    requires db.Valid()
    modifies db
    ensures db.Valid()
    ensures db.activities == old(db.activities) && db.organizations == old(db.organizations) && db.links == old(db.links)
    ensures !StoreAccepts(address, latitude, longitude) ==>
              r == Fail(Unprocessable) && db.buildings == old(db.buildings)
    ensures StoreAccepts(address, latitude, longitude) ==>
              var b := Building(address.value, latitude.value, longitude.value);
              && r == Response(Created, Some((old(db.buildings.nextId), b)))
              && db.buildings == old(db.buildings).Insert(b)
  {
    if !StoreAccepts(address, latitude, longitude) {
      return Fail(Unprocessable);
    }
    var b := Building(address.value, latitude.value, longitude.value);
    var id := db.buildings.nextId;
    db.buildings := db.buildings.Insert(b);
    r := Response(Created, Some((id, b)));
  }

  /** `show`: the stored building, or 404. */
  method Show(db: Database, id: int) returns (r: Response<(int, Building)>)
    requires db.Valid()
    ensures id !in db.buildings.rows ==> r == Fail(NotFound)
    ensures id in db.buildings.rows ==> r == Response(OK, Some((id, db.buildings.rows[id])))
  {
    if id !in db.buildings.rows {
      return Fail(NotFound);
    }
    r := Response(OK, Some((id, db.buildings.rows[id])));
  }

  /**
   * `update`: the form request, which authorizes every caller, is validated
   * before the action runs, so an invalid request is refused with 422 whether
   * or not the building exists.
   */
  method Update(db: Database, id: int, p: BuildingUpdateRequest.Patch) returns (r: Response<(int, Building)>)
    requires db.Valid()
    modifies db
    ensures db.Valid()
    ensures db.activities == old(db.activities) && db.organizations == old(db.organizations) && db.links == old(db.links)
    ensures !BuildingUpdateRequest.Passes(p) ==> r == Fail(Unprocessable) && db.buildings == old(db.buildings)
    ensures BuildingUpdateRequest.Passes(p) && id !in old(db.buildings.rows) ==>
              r == Fail(NotFound) && db.buildings == old(db.buildings)
    ensures BuildingUpdateRequest.Passes(p) && id in old(db.buildings.rows) ==>
              var b := BuildingUpdateRequest.Apply(old(db.buildings.rows[id]), p);
              && r == Response(OK, Some((id, b)))
              && db.buildings == old(db.buildings).Put(id, b)
  {
    if !BuildingUpdateRequest.Passes(p) {
      return Fail(Unprocessable);
    }
    if id !in db.buildings.rows {
      return Fail(NotFound);
    }
    var b := BuildingUpdateRequest.Apply(db.buildings.rows[id], p);
    BuildingUpdateRequest.RulesKeepExactlyLocated(db.buildings.rows[id], p);
    db.buildings := db.buildings.Put(id, b);
    r := Response(OK, Some((id, b)));
  }

  /** `destroy`: removes the building; organizations that name it are left as they are. */
  method Destroy(db: Database, id: int) returns (r: Response<()>)
    requires db.Valid()
    modifies db
    ensures db.Valid()
    ensures db.activities == old(db.activities) && db.organizations == old(db.organizations) && db.links == old(db.links)
    ensures id !in old(db.buildings.rows) ==> r == Fail(NotFound) && db.buildings == old(db.buildings)
    ensures id in old(db.buildings.rows) ==> r == Response(OK, None) && db.buildings == old(db.buildings).Remove(id)
  {
    if id !in db.buildings.rows {
      return Fail(NotFound);
    }
    db.buildings := db.buildings.Remove(id);
    r := Response(OK, None);
  }
}
