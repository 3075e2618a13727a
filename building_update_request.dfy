/** The form request that guards `PUT /buildings/{id}`. */
module BuildingUpdateRequest {
  import opened Schema
  import Validation

  /** The body of the request; a field the client left out is `None`. */
  datatype Patch = Patch(address: Option<string>, latitude: Option<real>, longitude: Option<real>)

  /** `authorize`: every caller may send this request. */
  function Authorize(): (granted: bool)
    ensures granted
  {
    true
  }

  /** `address`: sometimes|string|max:255 */
  predicate AddressRule(p: Patch) {
    p.address.Some? ==> Validation.FitsColumn(p.address.value)
  }

  /** `latitude`: sometimes|numeric|between:-90,90 */
  predicate LatitudeRule(p: Patch) {
    p.latitude.Some? ==> Validation.IsLatitude(p.latitude.value)
  }

  /** `longitude`: sometimes|numeric|between:-180,180 */
  predicate LongitudeRule(p: Patch) {
    p.longitude.Some? ==> Validation.IsLongitude(p.longitude.value)
  }

  /** `rules`: the request validates when every field's rule passes. */
  predicate Passes(p: Patch) {
    AddressRule(p) && LatitudeRule(p) && LongitudeRule(p)
  }

  /** `$building->update($request->validated())`: the fields sent replace the stored ones. */
  function Apply(b: Building, p: Patch): Building {
    Building(
      if p.address.Some? then p.address.value else b.address,
      if p.latitude.Some? then p.latitude.value else b.latitude,
      if p.longitude.Some? then p.longitude.value else b.longitude)
  }

  /** Every field is `sometimes`: a request with no field at all validates and changes nothing. */
  lemma EmptyPatchPasses(b: Building)
    ensures Passes(Patch(None, None, None)) && Apply(b, Patch(None, None, None)) == b
  {
  }

  /**
   * The rules accept exactly the requests that keep a building within the
   * bounds a stored building satisfies: an address of at most 255 characters,
   * a latitude in [-90, 90] and a longitude in [-180, 180], bounds included.
   */
  lemma RulesKeepExactlyLocated(b: Building, p: Patch)
    requires Located(b)
    ensures Passes(p) <==> Located(Apply(b, p))
  {
  }
}
