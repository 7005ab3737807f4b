/** The one-off migration from the DynamoDB export to Postgres: each
    exported restaurant is upserted with its parsed address, its stored
    hours and its types, and committed on its own. The first exception
    rolls back the restaurant being written and ends the batch. */
module Migration {
  import opened Wrappers
  import opened Address
  import opened Hours
  import opened Store

  /** One exported restaurant; every key may be missing. */
  datatype Record = Record(
    googleId: Option<string>,
    googleName: Option<string>,
    displayName: Option<string>,
    address: Option<string>,
    businessStatus: Option<string>,
    editorialSummary: Option<string>,
    googleUrl: Option<string>,
    latitude: Option<string>,
    longitude: Option<string>,
    ratings: Option<string>,
    vegetarianFood: Option<bool>,
    website: Option<string>,
    descriptions: Option<seq<string>>,
    openingHours: Option<seq<StoredHours>>,
    restaurantTypes: Option<seq<string>>,
    primaryType: Option<string>)

  /** The restaurant columns, `a` being the address parsed with the
      shorter street table: vegetarian food false unless stated, the
      description lines joined. */
  function MigrationColumns(rec: Record, a: Address): (c: Columns)
    ensures c.googleName == rec.googleName && c.address == a
    ensures c.displayName == rec.displayName && c.businessStatus == rec.businessStatus
    ensures c.editorialSummary == rec.editorialSummary && c.googleUrl == rec.googleUrl
    ensures c.latitude == rec.latitude && c.longitude == rec.longitude
    ensures c.ratings == rec.ratings && c.website == rec.website
    ensures c.vegetarianFood <==> rec.vegetarianFood == Some(true)
    ensures c.description.None? <==> rec.descriptions.None? || rec.descriptions == Some([])
    ensures c.description == JoinedDescription(rec.descriptions)
  {
    Columns(
      rec.googleName, rec.displayName, a,
      rec.businessStatus, rec.editorialSummary, rec.googleUrl,
      rec.latitude, rec.longitude, rec.ratings,
      rec.vegetarianFood.GetOr(false),
      rec.website,
      JoinedDescription(rec.descriptions))
  }

  /** The record lists a non-empty type, so the types loop binds the
      insert statement. */
  predicate HasType(rec: Record) {
    rec.restaurantTypes.Some? && exists ty :: ty in rec.restaurantTypes.value && ty != ""
  }

  predicate HasPrimary(rec: Record) {
    rec.primaryType.Some? && rec.primaryType.value != ""
  }

  /** The statements the loop runs for one record on the open
      transaction, given the working tables, the record, the next value of
      the id sequence and the clock. */
  type Statements = (Tables, Record, nat, nat) -> Tables

  /** The statements of `insert_restaurants_to_db`: upsert the restaurant
      with its parsed address, insert each stored hours item, insert the
      types and the primary type. */
  function RecordStatements(t: Tables, rec: Record, newId: nat, now: nat): (r: Tables)
    ensures rec.googleId.Some? ==>
              && rec.googleId.value in r.keyed
              && r.keyed.Keys == t.keyed.Keys + {rec.googleId.value}
              && r.keyed[rec.googleId.value].cols == MigrationColumns(rec, Parse(MigrationStreetTypes, rec.address))
              && r.unkeyed == t.unkeyed
    ensures rec.googleId.None? ==>
              && r.keyed == t.keyed
              && r.unkeyed == t.unkeyed + [RestaurantRow(newId, MigrationColumns(rec, Parse(MigrationStreetTypes, rec.address)), None)]
    ensures forall k :: k in t.keyed && Some(k) != rec.googleId ==> k in r.keyed && r.keyed[k] == t.keyed[k]
    ensures var id := if rec.googleId.Some? && rec.googleId.value in t.keyed then t.keyed[rec.googleId.value].id else newId;
            && (rec.googleId.Some? ==> rec.googleId.value in r.keyed && r.keyed[rec.googleId.value].id == id)
            && r.hours == t.hours + Stamped(id, MigrateHours(rec.openingHours))
            && r.tags == AddTags(t.tags, id, rec.restaurantTypes, rec.primaryType)
    ensures r.quota == t.quota
  {
    var (t1, id) := Upsert(t, rec.googleId, MigrationColumns(rec, Parse(MigrationStreetTypes, rec.address)), newId, now);
    var t2 := AddHours(t1, id, MigrateHours(rec.openingHours));
    t2.(tags := AddTags(t2.tags, id, rec.restaurantTypes, rec.primaryType))
  }

  /** The state the loop carries from one restaurant to the next: the
      connection, and whether the tag insert statement has been bound. */
  datatype Step = Step(db: Db, bound: bool, error: Option<string>)

  /** The exception a primary type raises before any type was inserted. */
  const UnboundInsert := "UnboundLocalError: cannot access local variable 'restaurant_type_insert' where it is not associated with a value"

  /** One restaurant, as written: its statements, then commit. The
      primary-type insert reuses the statement the types loop binds;
      unbound, it raises `UnboundLocalError`. `fault` stands for any database error
      while writing this restaurant; wherever it happens, the restaurant is
      rolled back. The id sequence advances once per record written. */
  function MigrateOne(run: Statements, db: Db, rec: Record, bound: bool, now: nat, fault: bool): (r: Step)
    ensures r.bound <==> bound || HasType(rec)
    ensures Clean(r.db)
    ensures r.error.Some? <==> fault || (HasPrimary(rec) && !bound && !HasType(rec))
    ensures r.error.Some? ==> r.db == Rollback(db)
    ensures r.error.None? ==> r.db.durable == run(db.working, rec, db.nextId, now) && r.db.nextId == db.nextId + 1
  {
    var bound' := bound || HasType(rec);
    if fault then Step(Rollback(db), bound', Some("database error"))
    else if HasPrimary(rec) && !bound' then
      Step(Rollback(db), bound', Some(UnboundInsert))
    else
      Step(Commit(Db(db.durable, run(db.working, rec, db.nextId, now), db.nextId + 1)), bound', None)
  }

  /** The loop from record `i` on: stops at the first error, which is
      raised again. `failing` holds the indices whose writes fail. The
      third component is the number of restaurants committed. */
  function MigrateFrom(run: Statements, db: Db, recs: seq<Record>, bound: bool, now: nat, failing: set<nat>, i: nat): (r: (Db, Option<string>, nat))
    requires i <= |recs|
    ensures i <= r.2 <= |recs|
    ensures r.1.None? <==> r.2 == |recs|
    decreases |recs| - i
  {
    if i == |recs| then (db, None, i)
    else
      var s := MigrateOne(run, db, recs[i], bound, now, i in failing);
      if s.error.Some? then (s.db, s.error, i)
      else MigrateFrom(run, s.db, recs, s.bound, now, failing, i + 1)
  }

  /** Record `k` reads the insert statement unbound: it has a primary
      type, and neither the loop's start nor any record from `i` through
      `k` bound the statement. */
  predicate Unbound(recs: seq<Record>, bound: bool, i: nat, k: nat)
    requires i <= k < |recs|
  {
    !bound && HasPrimary(recs[k]) && forall j :: i <= j <= k ==> !HasType(recs[j])
  }

  /** Record `k` raises: its writes fail or it reads the statement unbound. */
  predicate Raises(recs: seq<Record>, bound: bool, failing: set<nat>, i: nat, k: nat)
    requires i <= k < |recs|
  {
    k in failing || Unbound(recs, bound, i, k)
  }

  /** `insert_restaurants_to_db` as written: nothing is bound at first.
      The batch stops at the first record that raises, with the
      `UnboundLocalError` unless that record's writes failed, and runs to
      the end when none does. */
  function InsertRestaurants(db: Db, recs: seq<Record>, now: nat, failing: set<nat>): (r: (Db, Option<string>, nat))
    ensures r.1.None? <==> r.2 == |recs|
    ensures r.1.Some? ==> r.2 < |recs| && Raises(recs, false, failing, 0, r.2)
    ensures r.1.Some? ==> (r.1 == Some(UnboundInsert) <==> r.2 !in failing)
    ensures forall k :: 0 <= k < r.2 ==> !Raises(recs, false, failing, 0, k)
  {
    StopsAtFirstRaise(RecordStatements, db, recs, false, now, failing, 0);
    MigrateFrom(RecordStatements, db, recs, false, now, failing, 0)
  }

  /** As intended: the tag insert statement is bound before the loop, as
      the Airflow task does, so a primary type never raises and the batch
      stops only at the first record whose writes fail. */
  function InsertRestaurantsFixed(db: Db, recs: seq<Record>, now: nat, failing: set<nat>): (r: (Db, Option<string>, nat))
    ensures r.1.None? <==> r.2 == |recs|
    ensures r.1.Some? ==> r.2 in failing
    ensures forall k :: 0 <= k < r.2 ==> k !in failing
  {
    FixedStopsOnlyAtFaults(RecordStatements, db, recs, now, failing);
    MigrateFrom(RecordStatements, db, recs, true, now, failing, 0)
  }

  // ---------------------------------------------------------------------
  // The loop, whatever a record's statements write

  /** The loop stops at the first record that raises, and only there. */
  lemma {:induction false} StopsAtFirstRaise(run: Statements, db: Db, recs: seq<Record>, bound: bool, now: nat, failing: set<nat>, i: nat)
    requires i <= |recs|
    ensures var (_, err, n) := MigrateFrom(run, db, recs, bound, now, failing, i);
            && (err.Some? ==> n < |recs| && Raises(recs, bound, failing, i, n))
            && (err.Some? ==> (err == Some(UnboundInsert) <==> n !in failing))
            && (forall k :: i <= k < n ==> !Raises(recs, bound, failing, i, k))
    decreases |recs| - i
  {
    if i < |recs| {
      var s := MigrateOne(run, db, recs[i], bound, now, i in failing);
      if s.error.None? {
        StopsAtFirstRaise(run, s.db, recs, s.bound, now, failing, i + 1);
        var (_, err, n) := MigrateFrom(run, s.db, recs, s.bound, now, failing, i + 1);
        forall k | i + 1 <= k < |recs|
          ensures Raises(recs, s.bound, failing, i + 1, k) <==> Raises(recs, bound, failing, i, k)
        {
          assert Unbound(recs, s.bound, i + 1, k) <==> Unbound(recs, bound, i, k);
        }
        assert !Raises(recs, bound, failing, i, i);
        forall k | i <= k < n
          ensures !Raises(recs, bound, failing, i, k)
        {
          if k > i {
            assert !Raises(recs, s.bound, failing, i + 1, k);
          }
        }
      }
    }
  }

  /** With the statement bound before the loop, the only errors are
      database errors. */
  lemma FixedStopsOnlyAtFaults(run: Statements, db: Db, recs: seq<Record>, now: nat, failing: set<nat>)
    ensures var (_, err, n) := MigrateFrom(run, db, recs, true, now, failing, 0);
            && (err.Some? ==> n in failing)
            && (forall k :: 0 <= k < n ==> k !in failing)
  {
    StopsAtFirstRaise(run, db, recs, true, now, failing, 0);
    var (_, err, n) := MigrateFrom(run, db, recs, true, now, failing, 0);
    forall k | 0 <= k < |recs|
      ensures Raises(recs, true, failing, 0, k) <==> k in failing
    {
    }
  }

  /** The loop as written agrees with the intended one once the statement
      is bound, and binding happens at the first record with a type. */
  lemma {:induction false} BoundLoopAgrees(run: Statements, db: Db, recs: seq<Record>, bound: bool, now: nat, failing: set<nat>, i: nat)
    requires i <= |recs|
    requires forall k :: i <= k < |recs| && HasPrimary(recs[k]) ==>
               bound || exists j :: i <= j <= k && HasType(recs[j])
    ensures MigrateFrom(run, db, recs, bound, now, failing, i) == MigrateFrom(run, db, recs, true, now, failing, i)
    decreases |recs| - i
  {
    if i < |recs| {
      var s := MigrateOne(run, db, recs[i], bound, now, i in failing);
      var t := MigrateOne(run, db, recs[i], true, now, i in failing);
      assert s.db == t.db && s.error == t.error;
      if s.error.None? {
        forall k | i + 1 <= k < |recs| && HasPrimary(recs[k])
          ensures s.bound || exists j :: i + 1 <= j <= k && HasType(recs[j])
        {
          if !s.bound {
            var j :| i <= j <= k && HasType(recs[j]);
            assert j != i;
          }
        }
        BoundLoopAgrees(run, s.db, recs, s.bound, now, failing, i + 1);
        BoundLoopAgrees(run, t.db, recs, true, now, failing, i + 1);
      }
    }
  }

  /** Each restaurant is committed on its own: when the batch stops at
      record `n`, the committed state is the one the first `n` records
      leave, and no later record was written. */
  lemma {:induction false} StopKeepsEarlierRestaurants(run: Statements, db: Db, recs: seq<Record>, bound: bool, now: nat, failing: set<nat>, i: nat)
    requires i <= |recs| && Clean(db)
    ensures var (after, err, n) := MigrateFrom(run, db, recs, bound, now, failing, i);
            err.Some? ==> after == MigrateFrom(run, db, recs[..n], bound, now, failing, i).0
    decreases |recs| - i
  {
    var (after, err, n) := MigrateFrom(run, db, recs, bound, now, failing, i);
    if i < |recs| && err.Some? {
      var s := MigrateOne(run, db, recs[i], bound, now, i in failing);
      if s.error.Some? {
        assert n == i && after == db;
        assert MigrateFrom(run, db, recs[..n], bound, now, failing, i).0 == db;
      } else {
        StopKeepsEarlierRestaurants(run, s.db, recs, s.bound, now, failing, i + 1);
        assert i < n && recs[..n][i] == recs[i];
      }
    }
  }

  // ---------------------------------------------------------------------
  // The script's own statements

  /** Every record with a primary type has a typed record at or before it:
      the loop as written then behaves as intended. */
  lemma AsWrittenAgreesWhenTypesComeFirst(db: Db, recs: seq<Record>, now: nat, failing: set<nat>)
    requires forall k :: 0 <= k < |recs| && HasPrimary(recs[k]) ==> exists j :: 0 <= j <= k && HasType(recs[j])
    ensures InsertRestaurants(db, recs, now, failing) == InsertRestaurantsFixed(db, recs, now, failing)
  {
    BoundLoopAgrees(RecordStatements, db, recs, false, now, failing, 0);
  }

  /** A batch whose first record has a primary type but no type: as
      written it raises at once and commits nothing; as intended it commits
      the record. */
  lemma PrimaryBeforeAnyTypeRaises(db: Db, rec: Record, now: nat)
    requires HasPrimary(rec) && !HasType(rec)
    ensures var (after, err, n) := InsertRestaurants(db, [rec], now, {});
            err.Some? && n == 0 && after.durable == db.durable
    ensures InsertRestaurantsFixed(db, [rec], now, {}).1.None?
  {
  }

  /** A batch that stops at record `n` leaves committed exactly what its
      first `n` records commit on their own. */
  lemma StopKeepsCommitted(db: Db, recs: seq<Record>, now: nat, failing: set<nat>)
    requires Clean(db)
    ensures var (after, err, n) := InsertRestaurants(db, recs, now, failing);
            err.Some? ==> after == InsertRestaurants(db, recs[..n], now, failing).0
  {
    StopKeepsEarlierRestaurants(RecordStatements, db, recs, false, now, failing, 0);
  }
}
