/** The `place_amenity` association table: rows of (place_id, amenity_id),
    both columns non-null, both foreign keys (into `places` and `amenities`),
    and together the composite primary key. */
module PlaceAmenityTable {
  import opened Wrappers

  /** A row as offered to the table; `None` is SQL NULL. */
  datatype Row = Row(placeId: Option<string>, amenityId: Option<string>)

  /** A stored link: a row with both columns set. */
  datatype Link = Link(placeId: string, amenityId: string)

  /** Why the table refuses a row. */
  datatype IntegrityError =
    | NullColumn(column: string)
    | DuplicateKey(key: Link)
    | MissingReference(table: string, id: string)

  /** No column of the row is NULL. */
  predicate NonNull(row: Row)
  {
    row.placeId.Some? && row.amenityId.Some?
  }

  /** The primary key of a non-null row. */
  function KeyOf(row: Row): Link
    requires NonNull(row)
  {
    Link(row.placeId.value, row.amenityId.value)
  }

  /** No two rows of the table carry the same (place_id, amenity_id) key. */
  predicate UniqueKeys(rows: seq<Link>)
  {
    forall i, j :: 0 <= i < j < |rows| ==> rows[i] != rows[j]
  }

  /** Every row names an existing Place and an existing Amenity. */
  predicate References(rows: seq<Link>, places: set<string>, amenities: set<string>)
  {
    forall i :: 0 <= i < |rows| ==> rows[i].placeId in places && rows[i].amenityId in amenities
  }

  /** The table's declared constraints. */
  predicate TableValid(rows: seq<Link>, places: set<string>, amenities: set<string>)
  {
    UniqueKeys(rows) && References(rows, places, amenities)
  }

  /** Inserting one row: refused when a column is NULL, when its key is
      already stored, or when it names a Place or an Amenity that does not
      exist; otherwise the row is added. */
  function Insert(rows: seq<Link>, row: Row, places: set<string>, amenities: set<string>)
    : (r: Result<seq<Link>, IntegrityError>)
    ensures r.Ok? <==>
      NonNull(row) && KeyOf(row) !in rows &&
      row.placeId.value in places && row.amenityId.value in amenities
    ensures r.Ok? ==> r.value == rows + [KeyOf(row)]
    ensures r.Err? && NonNull(row) && KeyOf(row) in rows ==> r.error == DuplicateKey(KeyOf(row))
    ensures !NonNull(row) ==> r.Err? && r.error.NullColumn?
    ensures NonNull(row) && KeyOf(row) !in rows && row.placeId.value !in places ==>
      r == Err(MissingReference("places", row.placeId.value))
    ensures (NonNull(row) && KeyOf(row) !in rows && row.placeId.value in places &&
             row.amenityId.value !in amenities) ==>
      r == Err(MissingReference("amenities", row.amenityId.value))
    ensures TableValid(rows, places, amenities) && r.Ok? ==> TableValid(r.value, places, amenities)
  {
    if row.placeId.None? then Err(NullColumn("place_id"))
    else if row.amenityId.None? then Err(NullColumn("amenity_id"))
    else if KeyOf(row) in rows then Err(DuplicateKey(KeyOf(row)))
    else if row.placeId.value !in places then Err(MissingReference("places", row.placeId.value))
    else if row.amenityId.value !in amenities then Err(MissingReference("amenities", row.amenityId.value))
    else Ok(rows + [KeyOf(row)])
  }

  /** Associating the same place and amenity a second time is refused with a
      duplicate-key error, so the pair is never stored twice. */
  lemma InsertTwice(rows: seq<Link>, placeId: string, amenityId: string, places: set<string>, amenities: set<string>)
    requires Insert(rows, Row(Some(placeId), Some(amenityId)), places, amenities).Ok?
    ensures
      var after := Insert(rows, Row(Some(placeId), Some(amenityId)), places, amenities).value;
      Insert(after, Row(Some(placeId), Some(amenityId)), places, amenities)
        == Err(DuplicateKey(Link(placeId, amenityId)))
  {
  }

  /** The stored pairs. */
  function Pairs(rows: seq<Link>): set<Link>
  {
    set i | 0 <= i < |rows| :: rows[i]
  }

  /** Because the key is unique, each pair appears at most once: a valid table
      has exactly as many rows as distinct pairs. */
  lemma {:induction false} RowsArePairs(rows: seq<Link>)
    requires UniqueKeys(rows)
    ensures |Pairs(rows)| == |rows|
  {
    if rows != [] {
      var init := rows[..|rows| - 1];
      var last := rows[|rows| - 1];
      assert UniqueKeys(init);
      RowsArePairs(init);
      assert Pairs(rows) == Pairs(init) + {last} by {
        forall x | x in Pairs(rows) ensures x in Pairs(init) + {last} {
          var i :| 0 <= i < |rows| && rows[i] == x;
          if i < |rows| - 1 { assert init[i] == x; }
        }
        forall x | x in Pairs(init) ensures x in Pairs(rows) {
          var i :| 0 <= i < |init| && init[i] == x;
          assert rows[i] == x;
        }
      }
      assert last !in Pairs(init) by {
        forall i | 0 <= i < |init| ensures init[i] != last {
          assert init[i] == rows[i];
        }
      }
    }
  }
}
