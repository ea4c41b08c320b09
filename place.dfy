/** The Place side of the Place <-> Amenity link as the file-storage backend
    sees it: a Place keeps the ids of its amenities in `amenityIds`; the
    `amenities` setter appends an Amenity's id once, and the `amenities` getter
    resolves the ids through storage. */
module PlaceModel {
  import opened Wrappers
  import opened AmenityModel

  /** No id occurs twice. */
  predicate NoDuplicates(ids: seq<string>)
  {
    forall i, j :: 0 <= i < j < |ids| ==> ids[i] != ids[j]
  }

  // ---------------------------------------------------------------------------
  // The setter

  /** The id list after `place.amenities = obj`: the object's id goes on the end
      when the object is exactly an Amenity whose id is not yet listed; in every
      other case the list stays as it was. */
  function Linked(ids: seq<string>, obj: Value): (r: seq<string>)
    // existing entries keep their places; at most one id is added, at the end
    ensures |ids| <= |r| <= |ids| + 1 && r[..|ids|] == ids
    // the list grows exactly when a not yet listed Amenity is given
    ensures |r| == |ids| + 1 <==> obj.AmenityValue? && obj.amenity.id !in ids
    // what is listed afterwards
    ensures forall x :: x in r <==> x in ids || (obj.AmenityValue? && x == obj.amenity.id)
    ensures obj.OtherValue? ==> r == ids
    ensures NoDuplicates(ids) ==> NoDuplicates(r)
  {
    if obj.AmenityValue? && obj.amenity.id !in ids then ids + [obj.amenity.id] else ids
  }

  /** Setting an amenity a second time changes nothing, whichever Amenity
      object with that id is given the second time. */
  lemma LinkedIdempotent(ids: seq<string>, a: Amenity, b: Amenity)
    requires a.id == b.id
    ensures Linked(Linked(ids, AmenityValue(a)), AmenityValue(b)) == Linked(ids, AmenityValue(a))
  {
  }

  /** Setting an id that is listed already, or any non-Amenity, is a no-op. */
  lemma LinkedNoOp(ids: seq<string>, obj: Value)
    requires obj.OtherValue? || obj.amenity.id in ids
    ensures Linked(ids, obj) == ids
  {
  }

  // ---------------------------------------------------------------------------
  // The getter

  /** The amenities the getter collects from `ids`: in list order, each id that
      storage finds contributes its Amenity; the others are skipped. Defined from
      the last id backwards so that it follows the getter's loop one step at a
      time. */
  function Found(ids: seq<string>, storage: Storage): (r: seq<Amenity>)
    ensures |r| <= |ids|
    ensures forall k :: 0 <= k < |r| ==> r[k] in storage.Values
  {
    if ids == [] then []
    else
      var last := ids[|ids| - 1];
      Found(ids[..|ids| - 1], storage) + (if last in storage then [storage[last]] else [])
  }

  /** The positions in `ids` whose id storage finds, in increasing order. */
  function FoundPositions(ids: seq<string>, storage: Storage): (p: seq<nat>)
  {
    if ids == [] then []
    else
      FoundPositions(ids[..|ids| - 1], storage) + (if ids[|ids| - 1] in storage then [|ids| - 1] else [])
  }

  /** The getter's result, exactly: the k-th amenity returned is the stored
      Amenity of the k-th found position, the positions increase (list order is
      kept), and every position whose id is found is among them (nothing found
      is dropped; only ids storage does not find are skipped). */
  lemma {:induction false} FoundInOrder(ids: seq<string>, storage: Storage)
    ensures |FoundPositions(ids, storage)| == |Found(ids, storage)|
    ensures forall k :: 0 <= k < |FoundPositions(ids, storage)| ==>
      FoundPositions(ids, storage)[k] < |ids| &&
      ids[FoundPositions(ids, storage)[k]] in storage &&
      Found(ids, storage)[k] == storage[ids[FoundPositions(ids, storage)[k]]]
    ensures forall k, l :: 0 <= k < l < |FoundPositions(ids, storage)| ==>
      FoundPositions(ids, storage)[k] < FoundPositions(ids, storage)[l]
    ensures forall j :: 0 <= j < |ids| && ids[j] in storage ==> j in FoundPositions(ids, storage)
  {
    if ids != [] {
      var init := ids[..|ids| - 1];
      FoundInOrder(init, storage);
      var p, f := FoundPositions(init, storage), Found(init, storage);
      assert forall k :: 0 <= k < |p| ==> p[k] < |init| && ids[p[k]] == init[p[k]];
      assert forall j :: 0 <= j < |init| ==> ids[j] == init[j];
    }
  }

  /** An amenity is returned exactly when some listed id finds it. */
  lemma FoundMembership(ids: seq<string>, storage: Storage, a: Amenity)
    ensures a in Found(ids, storage) <==>
      exists j :: 0 <= j < |ids| && ids[j] in storage && storage[ids[j]] == a
  {
    FoundInOrder(ids, storage);
    var p, f := FoundPositions(ids, storage), Found(ids, storage);
    if a in f {
      var k :| 0 <= k < |f| && f[k] == a;
      assert ids[p[k]] in storage && storage[ids[p[k]]] == a;
    }
    if j :| 0 <= j < |ids| && ids[j] in storage && storage[ids[j]] == a {
      assert j in p;
      var k :| 0 <= k < |p| && p[k] == j;
      assert f[k] == a;
    }
  }

  /** The getter distributes over concatenation of the id list. */
  lemma {:induction false} FoundAppend(a: seq<string>, b: seq<string>, storage: Storage)
    ensures Found(a + b, storage) == Found(a, storage) + Found(b, storage)
    decreases |b|
  {
    if b == [] {
      assert a + b == a;
    } else {
      var initB := b[..|b| - 1];
      assert (a + b)[..|a + b| - 1] == a + initB;
      FoundAppend(a, initB, storage);
    }
  }

  /** When every listed id is in storage, one amenity comes back per id, in order. */
  lemma {:induction false} FoundAllStored(ids: seq<string>, storage: Storage)
    requires forall j :: 0 <= j < |ids| ==> ids[j] in storage
    ensures |Found(ids, storage)| == |ids|
    ensures forall j :: 0 <= j < |ids| ==> Found(ids, storage)[j] == storage[ids[j]]
  {
    if ids != [] {
      var init := ids[..|ids| - 1];
      FoundAllStored(init, storage);
    }
  }

  /** When no listed id is in storage, the getter returns the empty list. */
  lemma {:induction false} FoundNoneStored(ids: seq<string>, storage: Storage)
    requires forall j :: 0 <= j < |ids| ==> ids[j] !in storage
    ensures Found(ids, storage) == []
  {
    if ids != [] {
      FoundNoneStored(ids[..|ids| - 1], storage);
    }
  }

  /** With a store that files each Amenity under its own id, the amenities
      returned have distinct ids when the listed ids are distinct. */
  lemma FoundNoDuplicates(ids: seq<string>, storage: Storage)
    requires KeyedById(storage)
    requires NoDuplicates(ids)
    ensures forall k, l :: 0 <= k < l < |Found(ids, storage)| ==>
      Found(ids, storage)[k].id != Found(ids, storage)[l].id
  {
    FoundInOrder(ids, storage);
    var p, f := FoundPositions(ids, storage), Found(ids, storage);
    forall k, l | 0 <= k < l < |f| ensures f[k].id != f[l].id {
      assert f[k].id == ids[p[k]] && f[l].id == ids[p[l]];
    }
  }

  /** Setting then getting: the getter's result grows by the stored amenity
      exactly when the setter added an id that storage finds. */
  lemma FoundAfterLinked(ids: seq<string>, obj: Value, storage: Storage)
    ensures Found(Linked(ids, obj), storage) ==
      Found(ids, storage) +
      (if obj.AmenityValue? && obj.amenity.id !in ids && obj.amenity.id in storage
       then [storage[obj.amenity.id]] else [])
  {
    if obj.AmenityValue? && obj.amenity.id !in ids {
      assert (ids + [obj.amenity.id])[..|ids|] == ids;
    }
  }

  // ---------------------------------------------------------------------------
  // The Place object

  /** A Place as far as its amenities are concerned. */
  class Place {
    const id: string
    /** The ids of the amenities linked to this Place, in linking order. */
    var amenityIds: seq<string>

    /** A new Place starts with no linked amenities. */
    constructor (id: string)
      ensures this.id == id && amenityIds == []
    {
      this.id := id;
      amenityIds := [];
    }

    /** `place.amenities = obj`: link `obj` when it is an Amenity not yet linked. */
    method SetAmenities(obj: Value)
      modifies this
      ensures amenityIds == Linked(old(amenityIds), obj)
    {
      if obj.AmenityValue? && obj.amenity.id !in amenityIds {
        amenityIds := amenityIds + [obj.amenity.id];
      }
    }

    /** `place.amenities`: the linked amenities that storage finds, in linking
        order. The method modifies nothing: neither the Place nor storage. */
    method GetAmenities(storage: Storage) returns (amenityList: seq<Amenity>)
      ensures amenityList == Found(amenityIds, storage)
    {
      amenityList := [];
      for i := 0 to |amenityIds|
        invariant amenityList == Found(amenityIds[..i], storage)
      {
        var amenityId := amenityIds[i];
        assert amenityIds[..i + 1][..i] == amenityIds[..i];
        if amenityId in storage {
          amenityList := amenityList + [storage[amenityId]];
        }
      }
      assert amenityIds[..|amenityIds|] == amenityIds;
    }
  }

  // ---------------------------------------------------------------------------
  // The setter as written

  /** Why the setter as written cannot run. */
  datatype PythonError = NameError(name: string)

  /** The names the setter's body can resolve: its parameters, the module's
      globals (its imports, the association table and the class) and the
      builtins it uses. `Amenity` is imported only inside the getter, so it is
      not among them. */
  const SetterScope: set<string> :=
    {"self", "obj",
     "Column", "String", "Integer", "Float", "ForeignKey", "Table",
     "relationship", "BaseModel", "Base", "place_amenity", "Place",
     "type"}

  /** The setter as written, run with the names in `scope` resolvable:
      evaluating `type(obj) == Amenity` looks the name `Amenity` up first, and
      fails with a NameError, before any change to the list, when it is
      unbound. */
  function SetAmenitiesAsWritten(scope: set<string>, ids: seq<string>, obj: Value): (r: Result<seq<string>, PythonError>)
    ensures "Amenity" !in scope ==> r == Err(NameError("Amenity"))
    ensures "Amenity" in scope ==> r.Ok? && r.value == Linked(ids, obj)
  {
    if "Amenity" !in scope then Err(NameError("Amenity"))
    else Ok(Linked(ids, obj))
  }

  /** In the scope the setter actually has, handing it an Amenity that is not
      yet linked raises a NameError instead of linking it. */
  lemma SetterAsWrittenNeverLinks(ids: seq<string>, a: Amenity)
    requires a.id !in ids
    ensures SetAmenitiesAsWritten(SetterScope, ids, AmenityValue(a)) == Err(NameError("Amenity"))
    ensures Linked(ids, AmenityValue(a)) == ids + [a.id]
  {
  }
}
