# Place <-> Amenity association (AirBnB clone)

This project models how a Place is linked to its Amenities in the AirBnB clone's
persistence layer, and proves properties of the model in Dafny 4.11.

- **The `place_amenity` association table** (`place_amenity.dfy`, module
  `PlaceAmenityTable`) holds (place_id, amenity_id) rows. Both columns are
  non-null. Each is a foreign key, into `places` and into `amenities`. Together
  they form the composite primary key. `Insert` admits a row only when the
  declared constraints allow it. Otherwise it returns a typed integrity error.
- **The file-storage view of the link** (`place.dfy`, module `PlaceModel`) is a
  `Place` class with a sequence field `amenityIds`, which stands for the
  source's `amenity_ids`.
  - `SetAmenities` is the `amenities` setter. It appends the id of an object
    whose exact type is Amenity, and only if that id is not already listed.
  - `GetAmenities` is the `amenities` getter. It loops over `amenityIds` and
    collects, in order, the Amenity that storage finds for each id. Ids that
    storage does not find are skipped.
  - Both methods are proved against the pure functions `Linked` and `Found`.
    The lemmas about those functions state ordering, membership, no-duplicates
    and idempotence.
- `amenity.dfy` (module `AmenityModel`) holds the Amenity record: id and
  `name`, the field list of amenity.py. It also holds `Value`, a tagged object
  type that lets the setter's exact-type check be expressed, and `Storage`,
  the lookup `storage.get(Amenity, id)` as a map from id to Amenity.
- `wrappers.dfy` holds `Option`, used for SQL NULL, and `Result`.

Decisions where the code is silent or could be read more than one way:
- `amenity_ids` is a list in the code: the setter appends at the end and tests
  membership, and the getter walks it in order. The model follows the code.
- `amenity_ids` is not declared in place.py. It is read at place.py:36 and
  place.py:45, and hinted at by the comment at place.py:19. The model
  introduces it as a field of `Place`. The constructor starts it empty.
- The setter names `Amenity`, but that name is imported only inside the getter
  (place.py:34). The main model uses the intended check "obj is exactly an
  Amenity". The code as written is kept separately; see "## Findings".

## Model

| member | source | states |
|---|---|---|
| PlaceModel.Linked | place.py:42-46 | After the setter, existing ids keep their positions and at most one id is added, at the end. The list grows exactly when the object is an Amenity whose id is not yet listed. What is listed afterwards is the old ids plus that Amenity's id. A non-Amenity leaves the list unchanged. A list without duplicates stays without duplicates. |
| PlaceModel.LinkedIdempotent | place.py:45-46 | Setting an Amenity a second time, through any Amenity object with the same id, gives the same list as setting it once. |
| PlaceModel.LinkedNoOp | place.py:45 | Setting a non-Amenity object, or an Amenity whose id is already listed, leaves the id list unchanged. |
| PlaceModel.Place.SetAmenities | place.py:42-46 | The setter changes only `amenityIds`. Its new value is `Linked` of the old list and the object. |
| PlaceModel.Place.constructor | place.py:16-19 | A new Place has the given id and no linked amenities. |
| PlaceModel.Found | place.py:35-40 | The getter's result has no more entries than there are listed ids, and every entry is an Amenity held by storage. |
| PlaceModel.FoundInOrder | place.py:35-40 | The getter returns exactly the found amenities, in list order. The k-th result is the stored Amenity at the k-th position whose id storage finds. These positions strictly increase. Every position whose id is found is among them, so only ids that storage does not find are skipped. |
| PlaceModel.FoundMembership | place.py:36-39 | An Amenity is in the getter's result if and only if some listed id makes storage return it. |
| PlaceModel.FoundAppend | place.py:36-39 | The getter's result for a concatenated id list is the result for the first part followed by the result for the second. |
| PlaceModel.FoundAllStored | place.py:36-39 | When storage finds every listed id, the getter returns one Amenity per id, in list order. |
| PlaceModel.FoundNoneStored | place.py:37-38 | When storage finds none of the listed ids, the getter returns an empty list. |
| PlaceModel.FoundNoDuplicates | place.py:36-40 | The amenities returned have pairwise distinct ids when two things hold: the listed ids are distinct, and storage files each Amenity under its own id. |
| PlaceModel.FoundAfterLinked | place.py:30-46 | After the setter, the getter returns its old result plus the stored Amenity, exactly when the setter added an id that storage finds. |
| PlaceModel.Place.GetAmenities | place.py:30-40 | The getter loop returns `Found` of the current id list. It has no modifies clause, so it changes neither the Place nor storage. |
| PlaceModel.SetAmenitiesAsWritten | place.py:42-46 | The setter as written, with name resolution modelled: if `Amenity` is unbound in the setter's scope, every call fails with a NameError before anything changes. If it is bound, the result is `Linked`. |
| PlaceModel.SetterAsWrittenNeverLinks | place.py:45 | In the setter's actual scope, handing it a not-yet-linked Amenity raises NameError. The intended behaviour would append that Amenity's id. |
| PlaceAmenityTable.Insert | place.py:9-14 | A row is stored if and only if both columns are non-null, its (place_id, amenity_id) key is not already stored, and both ids name existing rows (keys and ids compared by exact string equality) in `places` and `amenities`. A stored row is appended. Each refusal carries its reason: a null column, a duplicate key, or a missing reference. Insertion keeps the table's constraints valid. |
| PlaceAmenityTable.InsertTwice | place.py:12-13 | Inserting the same (place_id, amenity_id) pair a second time is refused with a duplicate-key error. |
| PlaceAmenityTable.RowsArePairs | place.py:12-13 | Because the key is unique, a table has exactly as many rows as distinct pairs, so no pair appears twice. |

## Findings

| source | as written | input that shows it | evidently intended | confidence | as-written member | corrected member |
|---|---|---|---|---|---|---|
| place.py:45 | `type(obj) == Amenity` names `Amenity`, which is imported only locally in the getter (place.py:34) and not at module level | any call of the setter, e.g. assigning a new Amenity to `place.amenities` on a Place with no linked amenities | append the Amenity's id when it is not yet listed | high; not executed | PlaceModel.SetAmenitiesAsWritten (counterexample: PlaceModel.SetterAsWrittenNeverLinks) | PlaceModel.Linked, used by PlaceModel.Place.SetAmenities |

## Left out

- The SQLAlchemy `relationship` at place.py:22-27 and `back_populates` in amenity.py. That is ORM behaviour. The relationship is also shadowed: the property defined at place.py:30-31 rebinds the name `amenities`.
- Cascades that remove association rows when a Place or Amenity is deleted. Neither place.py nor amenity.py declares them.
- The `String(60)` length of the association columns. What happens to a longer id depends on the database's SQL mode, which is not part of this model.
- PlaceAmenityTable.Insert: matches keys and foreign keys by exact string equality. The database's collation can treat ids that differ only in letter case as the same key (MySQL's default collations ignore case), and the model does not capture that. In practice the ids are lower-case uuids.
- The order in which `Insert` reports errors when several constraints fail (nulls first, then the duplicate key, then the references) is a modelling choice. The database defines it, not the source.
- `storage`: the file and database storage engines, `storage.get`, `new`, `save`, `delete`, `reload` and BaseModel are not part of this model. Storage is a parameter: the map from id to the Amenity that `storage.get(Amenity, id)` returns. An id not in the map is a lookup that returns `None`.
- The getter's truthiness test `if amenity:` is modelled as "storage found it". This assumes every Amenity object is truthy: amenity.py defines no `__bool__` or `__len__`, and BaseModel, which is not part of this model, is assumed to define neither.
- PlaceModel.Place.SetAmenities: gives each Place its own id list. The source only hints at how `amenity_ids` is declared. If it were a class attribute, all Places would share one list, and that aliasing is not modelled.
- Other Place columns, timestamps, `uuid` id generation and the float latitude/longitude fields. They play no part in the link.
- The deploy scripts (1-pack_web_static.py, 2-do_deploy_web_static.py, 3-deploy_web_static.py) and console.py. They are shell and remote-host I/O, and console.py is a bash setup script.
- The console's `create` key=value parser. Its implementation is not part of this model.
- user.py and review.py. They hold only column and relationship declarations, whose behaviour belongs to the ORM.
