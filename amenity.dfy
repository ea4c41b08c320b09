/** The Amenity entity, the objects the Place setter may be handed, and the
    storage lookup the Place getter relies on. */
module AmenityModel {

  /** An Amenity record: its identity (from the shared base model) and the
      `name` column of the `amenities` table. */
  datatype Amenity = Amenity(id: string, name: string)

  /** Any object that can be assigned to `place.amenities`. The setter looks
      only at whether the object's exact type is Amenity, and reads the id of
      an Amenity alone, so an object of any other class carries nothing. */
  datatype Value =
    | AmenityValue(amenity: Amenity)
    | OtherValue

  /** What `storage.get(Amenity, id)` can find: the stored Amenity objects by id.
      An id absent from the map is a lookup that answers `None`. */
  type Storage = map<string, Amenity>

  /** The store files each Amenity under its own id. */
  ghost predicate KeyedById(storage: Storage)
  {
    forall id :: id in storage ==> storage[id].id == id
  }
}
