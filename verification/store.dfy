/** The Postgres side of the Airflow task, as a state machine over tables
    held as maps: restaurants keyed by the place id, an append-only list of
    opening-hours rows, restaurant-type tags that are only ever added, and
    the monthly API quota counters. A connection has a durable state (what
    was committed) and a working state (what the open transaction sees). */
module Store {
  import opened Wrappers
  import opened Text
  import opened Places
  import opened Address
  import opened Hours
  import opened Reconcile

  // ---------------------------------------------------------------------
  // Tables

  /** The columns an upsert writes, besides the key and the id. */
  datatype Columns = Columns(
    googleName: Option<string>,
    displayName: Option<string>,
    address: Address,
    businessStatus: Option<string>,
    editorialSummary: Option<string>,
    googleUrl: Option<string>,
    latitude: Option<string>,
    longitude: Option<string>,
    ratings: Option<string>,
    vegetarianFood: bool,
    website: Option<string>,
    description: Option<string>)

  /** `refreshedAt` is `updated_at` as the upsert sets it: only a conflict
      sets it, to `CURRENT_TIMESTAMP`, which in Postgres is the start time
      of the enclosing transaction (given to the model as `now`). */
  datatype RestaurantRow = RestaurantRow(id: nat, cols: Columns, refreshedAt: Option<nat>)

  datatype HoursEntry = HoursEntry(restaurantId: nat, row: HoursRow)

  datatype QuotaRow = QuotaRow(limit: int, used: int)

  /** `keyed` holds the rows with a place id; a row inserted with a null
      place id never conflicts, so such rows pile up in `unkeyed`. Tags map
      (restaurant id, type) to `is_primary_type`; quota rows are keyed by
      (month, tier). */
  datatype Tables = Tables(
    keyed: map<string, RestaurantRow>,
    unkeyed: seq<RestaurantRow>,
    hours: seq<HoursEntry>,
    tags: map<(nat, string), bool>,
    quota: map<(string, string), QuotaRow>)

  // ---------------------------------------------------------------------
  // Restaurant upsert

  /** `INSERT ... ON CONFLICT (google_id) DO UPDATE ... RETURNING id`: a
      known place id keeps its row id and gets every column overwritten; a
      new or null one gets a row with the id `newId` (the next value of the
      id sequence). Nothing but the restaurants changes. */
  function Upsert(t: Tables, key: Option<string>, cols: Columns, newId: nat, now: nat): (r: (Tables, nat))
    ensures r.0.hours == t.hours && r.0.tags == t.tags && r.0.quota == t.quota
    ensures key.Some? ==> && r.0.keyed.Keys == t.keyed.Keys + {key.value}
                          && r.0.keyed[key.value].cols == cols
                          && r.0.keyed[key.value].id == r.1
                          && r.0.unkeyed == t.unkeyed
    ensures key.Some? && key.value in t.keyed ==> r.1 == t.keyed[key.value].id
    ensures key.None? || key.value !in t.keyed ==> r.1 == newId
    ensures forall k :: k in t.keyed && Some(k) != key ==> k in r.0.keyed && r.0.keyed[k] == t.keyed[k]
    ensures key.None? ==> r.0.keyed == t.keyed && r.0.unkeyed == t.unkeyed + [RestaurantRow(newId, cols, None)]
  {
    match key
    case None => (t.(unkeyed := t.unkeyed + [RestaurantRow(newId, cols, None)]), newId)
    case Some(k) =>
      if k in t.keyed then
        var id := t.keyed[k].id;
        (t.(keyed := t.keyed[k := RestaurantRow(id, cols, Some(now))]), id)
      else
        (t.(keyed := t.keyed[k := RestaurantRow(newId, cols, None)]), newId)
  }

  /** Upserting the same place again returns the id it got the first
      time, whatever the columns and the sequence value. */
  lemma UpsertKeepsId(t: Tables, k: string, a: Columns, b: Columns, newId1: nat, newId2: nat, now1: nat, now2: nat)
    ensures var (t1, id1) := Upsert(t, Some(k), a, newId1, now1);
            Upsert(t1, Some(k), b, newId2, now2).1 == id1
  {
  }

  // ---------------------------------------------------------------------
  // Opening hours

  function Stamped(id: nat, rows: seq<HoursRow>): (r: seq<HoursEntry>)
    ensures |r| == |rows| && forall i :: 0 <= i < |rows| ==> r[i] == HoursEntry(id, rows[i])
  {
    if rows == [] then [] else [HoursEntry(id, rows[0])] + Stamped(id, rows[1..])
  }

  /** Inserting rows appends them; rows already there are kept. */
  function AddHours(t: Tables, id: nat, rows: seq<HoursRow>): (r: Tables)
    ensures r.keyed == t.keyed && r.unkeyed == t.unkeyed && r.tags == t.tags && r.quota == t.quota
    ensures |r.hours| == |t.hours| + |rows| && r.hours[..|t.hours|] == t.hours
    ensures forall i :: 0 <= i < |rows| ==> r.hours[|t.hours| + i] == HoursEntry(id, rows[i])
  {
    t.(hours := t.hours + Stamped(id, rows))
  }

  /** `_insert_opening_hours`: nothing without periods, otherwise the
      normalised rows. */
  function AirflowHoursRows(d: PlaceDetails): (r: seq<HoursRow>)
    ensures d.regularOpeningHours.None? ==> r == []
    ensures d.regularOpeningHours.Some? ==> r == FormatPeriods(d.regularOpeningHours.value.periods)
  {
    match d.regularOpeningHours
    case None => []
    case Some(oh) => FormatPeriods(oh.periods)
  }

  // ---------------------------------------------------------------------
  // Type tags

  /** `ON CONFLICT (restaurant_id, restaurant_type) DO NOTHING`. */
  function InsertTag(tags: map<(nat, string), bool>, id: nat, ty: string, primary: bool): (r: map<(nat, string), bool>)
    ensures (id, ty) in r
    ensures (id, ty) !in tags ==> r[(id, ty)] == primary
    ensures forall k :: k in tags ==> k in r && r[k] == tags[k]
    ensures forall k :: k in r ==> k in tags || k == (id, ty)
  {
    if (id, ty) in tags then tags else tags[(id, ty) := primary]
  }

  /** Each non-empty listed type as a secondary tag, in order. */
  function TagAll(tags: map<(nat, string), bool>, id: nat, tys: seq<string>): (r: map<(nat, string), bool>)
    ensures forall k :: k in tags ==> k in r && r[k] == tags[k]
    ensures forall k :: k in r && k !in tags ==> k.0 == id && k.1 in tys && k.1 != "" && !r[k]
    ensures forall ty :: ty in tys && ty != "" ==> (id, ty) in r
    decreases |tys|
  {
    if tys == [] then tags
    else
      var t1 := if tys[0] != "" then InsertTag(tags, id, tys[0], false) else tags;
      TagAll(t1, id, tys[1..])
  }

  /** `_insert_restaurant_types`: every listed type, then the primary type
      if there is one. */
  function AddTags(tags: map<(nat, string), bool>, id: nat, tys: Option<seq<string>>, primary: Option<string>): (r: map<(nat, string), bool>)
    ensures forall k :: k in tags ==> k in r && r[k] == tags[k]
    ensures forall k :: k in r && k !in tags ==>
              k.0 == id && ((tys.Some? && k.1 in tys.value && k.1 != "") || primary == Some(k.1))
    ensures tys.Some? ==> forall ty :: ty in tys.value && ty != "" ==> (id, ty) in r
    ensures primary.Some? && primary.value != "" ==> (id, primary.value) in r
    ensures (&& primary.Some? && primary.value != "" && (id, primary.value) !in tags
             && (tys.None? || primary.value !in tys.value))
            ==> r[(id, primary.value)]
    ensures forall ty :: tys.Some? && ty in tys.value && ty != "" && (id, ty) !in tags ==> !r[(id, ty)]
  {
    var t1 := if tys.Some? then TagAll(tags, id, tys.value) else tags;
    if primary.Some? && primary.value != "" then InsertTag(t1, id, primary.value, true) else t1
  }

  /** Tagging again with the same types changes nothing. */
  lemma {:induction false} TagAllIdempotent(tags: map<(nat, string), bool>, id: nat, tys: seq<string>)
    ensures TagAll(TagAll(tags, id, tys), id, tys) == TagAll(tags, id, tys)
  {
    TagAllAbsorbs(TagAll(tags, id, tys), id, tys);
  }

  /** Tags already holding every listed type absorb the listing. */
  lemma {:induction false} TagAllAbsorbs(tags: map<(nat, string), bool>, id: nat, tys: seq<string>)
    requires forall ty :: ty in tys && ty != "" ==> (id, ty) in tags
    ensures TagAll(tags, id, tys) == tags
  {
    if tys != [] {
      TagAllAbsorbs(tags, id, tys[1..]);
    }
  }

  lemma AddTagsIdempotent(tags: map<(nat, string), bool>, id: nat, tys: Option<seq<string>>, primary: Option<string>)
    ensures AddTags(AddTags(tags, id, tys, primary), id, tys, primary) == AddTags(tags, id, tys, primary)
  {
    var once := AddTags(tags, id, tys, primary);
    if tys.Some? {
      TagAllAbsorbs(once, id, tys.value);
    }
  }

  /** A type already listed as secondary stays secondary when it is also
      the primary type. */
  lemma ListedPrimaryStaysSecondary(tags: map<(nat, string), bool>, id: nat, p: string)
    requires p != "" && (id, p) !in tags
    ensures AddTags(tags, id, Some([p]), Some(p))[(id, p)] == false
  {
  }

  /** Runs with different primary types leave both tagged primary: nothing
      keeps a restaurant to a single primary type. */
  lemma PrimaryTypesAccumulate(tags: map<(nat, string), bool>, id: nat, a: string, b: string)
    requires a != "" && b != "" && a != b
    requires (id, a) !in tags && (id, b) !in tags
    ensures var after := AddTags(AddTags(tags, id, None, Some(a)), id, None, Some(b));
            after[(id, a)] && after[(id, b)]
  {
  }

  // ---------------------------------------------------------------------
  // Quota counter

  /** The limits of the three API tiers. */
  function TierLimit(tier: string): (r: Option<int>)
    ensures r.Some? <==> tier in DefaultServices
    ensures r == Some(10000) <==> tier == "essential"
    ensures r == Some(5000) <==> tier == "pro"
    ensures r == Some(1000) <==> tier == "enterprise"
  {
    if tier == "essential" then Some(10000)
    else if tier == "pro" then Some(5000)
    else if tier == "enterprise" then Some(1000)
    else None
  }

  const DefaultServices: seq<string> := ["pro", "essential", "enterprise"]

  /** One tier: count one more use of an existing row, or create the row
      with one use; an unknown tier without a row is skipped. */
  function CountOne(q: map<(string, string), QuotaRow>, month: string, tier: string): (r: map<(string, string), QuotaRow>)
    ensures (month, tier) in q ==> r == q[(month, tier) := q[(month, tier)].(used := q[(month, tier)].used + 1)]
    ensures (month, tier) !in q && TierLimit(tier).Some? ==> r == q[(month, tier) := QuotaRow(TierLimit(tier).value, 1)]
    ensures (month, tier) !in q && TierLimit(tier).None? ==> r == q
  {
    if (month, tier) in q then
      q[(month, tier) := q[(month, tier)].(used := q[(month, tier)].used + 1)]
    else
      match TierLimit(tier)
      case None => q
      case Some(limit) => q[(month, tier) := QuotaRow(limit, 1)]
  }

  function CountAll(q: map<(string, string), QuotaRow>, month: string, tiers: seq<string>): (r: map<(string, string), QuotaRow>)
    ensures forall k :: k in q ==> k in r
    ensures forall k :: k in r && k !in q ==> k.0 == month && k.1 in tiers && TierLimit(k.1).Some?
    decreases |tiers|
  {
    if tiers == [] then q else CountAll(CountOne(q, month, tiers[0]), month, tiers[1..])
  }

  /** `add_quota_counter`; without a list, all three tiers are counted:
      each tier's row for the month is counted once, and every other row
      is left as it was. */
  function AddQuotaCounter(q: map<(string, string), QuotaRow>, month: string, services: Option<seq<string>>): (r: map<(string, string), QuotaRow>)
    ensures forall k :: k in q ==> k in r
    ensures services.None? ==>
              && (forall tier :: tier in DefaultServices ==>
                    (month, tier) in r && r[(month, tier)] == Counted(q, month, tier).value)
              && (forall k :: k in r ==> k in q || (k.0 == month && k.1 in DefaultServices))
              && (forall k :: k in q && (k.0 != month || k.1 !in DefaultServices) ==> r[k] == q[k])
  {
    var tiers := services.GetOr(DefaultServices);
    if services.None? then
      CountAllDistinct(q, month, DefaultServices);
      CountAll(q, month, tiers)
    else CountAll(q, month, tiers)
  }

  /** The row of a tier after counting one use on it. */
  function Counted(q: map<(string, string), QuotaRow>, month: string, tier: string): Option<QuotaRow> {
    if (month, tier) in q then Some(q[(month, tier)].(used := q[(month, tier)].used + 1))
    else if TierLimit(tier).Some? then Some(QuotaRow(TierLimit(tier).value, 1))
    else None
  }

  /** Counting tiers listed once each: every listed tier's row is counted
      once, every other row is untouched. */
  lemma {:induction false} CountAllDistinct(q: map<(string, string), QuotaRow>, month: string, tiers: seq<string>)
    requires forall i, j :: 0 <= i < j < |tiers| ==> tiers[i] != tiers[j]
    ensures var r := CountAll(q, month, tiers);
            && (forall tier :: tier in tiers ==>
                  (Counted(q, month, tier).Some? <==> (month, tier) in r)
                  && (Counted(q, month, tier).Some? ==> r[(month, tier)] == Counted(q, month, tier).value))
            && (forall k :: k in q && (k.0 != month || k.1 !in tiers) ==> r[k] == q[k])
    decreases |tiers|
  {
    if tiers != [] {
      var q1 := CountOne(q, month, tiers[0]);
      var r := CountAll(q, month, tiers);
      assert r == CountAll(q1, month, tiers[1..]);
      CountAllDistinct(q1, month, tiers[1..]);
      assert tiers[0] !in tiers[1..];
      forall tier | tier in tiers
        ensures (Counted(q, month, tier).Some? <==> (month, tier) in r)
                && (Counted(q, month, tier).Some? ==> r[(month, tier)] == Counted(q, month, tier).value)
      {
        if tier != tiers[0] {
          assert tier in tiers[1..];
          CountOneElsewhere(q, month, tiers[0], tier);
        }
      }
    }
  }

  /** Counting one tier leaves the rows of other tiers as they were. */
  lemma CountOneElsewhere(q: map<(string, string), QuotaRow>, month: string, tier: string, other: string)
    requires other != tier
    ensures Counted(CountOne(q, month, tier), month, other) == Counted(q, month, other)
  {
  }

  /** On a month with no rows yet, the default call creates the three tier
      rows with one use each. */
  lemma NewMonthDefaultRows(q: map<(string, string), QuotaRow>, month: string)
    requires forall k :: k in q ==> k.0 != month
    ensures var r := AddQuotaCounter(q, month, None);
            && (month, "essential") in r && r[(month, "essential")] == QuotaRow(10000, 1)
            && (month, "pro") in r && r[(month, "pro")] == QuotaRow(5000, 1)
            && (month, "enterprise") in r && r[(month, "enterprise")] == QuotaRow(1000, 1)
  {
    CountAllDistinct(q, month, DefaultServices);
    assert "essential" in DefaultServices && "pro" in DefaultServices && "enterprise" in DefaultServices;
  }

  // ---------------------------------------------------------------------
  // Names not yet stored

  /** The names of the stored restaurants; a null name matches nothing. */
  function StoredNames(t: Tables): (r: set<string>)
    ensures forall n :: n in r <==>
              (exists k :: k in t.keyed && t.keyed[k].cols.googleName == Some(n))
              || (exists row :: row in t.unkeyed && row.cols.googleName == Some(n))
  {
    (set k | k in t.keyed && t.keyed[k].cols.googleName.Some? :: t.keyed[k].cols.googleName.value)
    + (set row | row in t.unkeyed && row.cols.googleName.Some? :: row.cols.googleName.value)
  }

  /** `get_restaurants_to_insert`: an empty list makes an empty `VALUES`
      clause, which the database rejects; otherwise the listed names no
      stored restaurant has, with repetitions. */
  function RestaurantsToInsert(t: Tables, names: seq<string>): (r: Result<seq<string>, string>)
    ensures r.Failure? <==> names == []
    ensures r.Success? ==> forall n :: n in r.value <==> n in names && n !in StoredNames(t)
  {
    if names == [] then Failure("syntax error at or near \")\"")
    else Success(Missing(names, StoredNames(t)))
  }

  /** A name listed twice and not stored is returned twice. */
  lemma NotStoredKeepsRepeats(t: Tables, names: seq<string>, n: string)
    requires names != [] && n !in StoredNames(t)
    ensures multiset(RestaurantsToInsert(t, names).value)[n] == multiset(names)[n]
  {
    MissingCounts(names, StoredNames(t), n);
  }

  // ---------------------------------------------------------------------
  // Transactions and process_and_store

  /** A connection: the committed tables, the tables the open transaction
      sees, and the id sequence, which a rollback does not rewind. */
  datatype Db = Db(durable: Tables, working: Tables, nextId: nat)

  predicate Clean(db: Db) {
    db.working == db.durable
  }

  function Commit(db: Db): (r: Db)
    ensures Clean(r) && r.working == db.working
  {
    db.(durable := db.working)
  }

  function Rollback(db: Db): (r: Db)
    ensures Clean(r) && r.durable == db.durable
  {
    db.(working := db.durable)
  }

  /** The statement that raises, for the database errors the model cannot
      see (a lost connection, a constraint): none, the upsert, the quota
      update, an hours insert or a tag insert. */
  datatype Fault = NoFault | FailUpsert | FailQuota | FailHours | FailTags

  datatype Outcome = Skipped | Stored(id: nat) | Raised(error: string)

  /** A details object with no key at all, which Python treats as false. */
  predicate NoDetails(d: PlaceDetails) {
    d == PlaceDetails(None, None, None, None, None, None, None, None, None, None, None, None, None)
  }

  /** The details can be stored: a place id, a non-empty object and an
      address. */
  predicate Storable(googleId: Option<string>, details: Option<PlaceDetails>) {
    && googleId.Some? && googleId.value != ""
    && details.Some? && !NoDetails(details.value)
    && details.value.formattedAddress.Some? && details.value.formattedAddress.value != ""
    && details.value.location.Some?
  }

  /** `str(x)` of a coordinate read with `.get(key, None)`. */
  function CoordinateOrNone(v: Option<string>): string {
    v.GetOr("None")
  }

  /** The columns `_insert_restaurant` writes, `a` being the parsed
      address. */
  function AirflowColumns(name: string, d: PlaceDetails, a: Address): (c: Columns)
    requires d.location.Some?
    ensures c.googleName == Some(name) && c.address == a
    ensures c.displayName == TextOf(d.displayName) && c.editorialSummary == TextOf(d.editorialSummary)
    ensures c.businessStatus == d.businessStatus && c.googleUrl == d.googleMapsUri
    ensures c.ratings == d.rating && c.website == d.websiteUri
    ensures c.vegetarianFood <==> d.servesVegetarianFood == Some(true)
    ensures c.latitude == Some(d.location.value.latitude.GetOr("None"))
    ensures c.longitude == Some(d.location.value.longitude.GetOr("None"))
    ensures c.description.None? <==>
              d.regularOpeningHours.None? || d.regularOpeningHours.value.weekdayDescriptions.None?
              || d.regularOpeningHours.value.weekdayDescriptions.value == []
    ensures c.description.Some? ==>
              c.description == FormatDescription(d.regularOpeningHours.value.weekdayDescriptions)
  {
    Columns(
      Some(name),
      TextOf(d.displayName),
      a,
      d.businessStatus,
      TextOf(d.editorialSummary),
      d.googleMapsUri,
      Some(CoordinateOrNone(d.location.value.latitude)),
      Some(CoordinateOrNone(d.location.value.longitude)),
      d.rating,
      d.servesVegetarianFood.GetOr(false),
      d.websiteUri,
      FormatDescription(if d.regularOpeningHours.Some? then d.regularOpeningHours.value.weekdayDescriptions else None))
  }

  /** What one restaurant writes: its key, the restaurant columns, the
      hours rows and the types. */
  datatype Plan = Plan(key: string, cols: Columns, rows: seq<HoursRow>, tys: Option<seq<string>>, primary: Option<string>)

  /** The writes `process_and_store` derives from the place details. */
  function PlanOf(name: string, key: string, d: PlaceDetails): (p: Plan)
    requires d.location.Some?
    ensures p.key == key && p.cols.googleName == Some(name)
  {
    Plan(key, AirflowColumns(name, d, Parse(AirflowStreetTypes, d.formattedAddress)),
         AirflowHoursRows(d), d.types, TextOf(d.primaryTypeDisplayName))
  }

  /** The statements of one restaurant, in order: upsert, quota update and
      commit, hours inserts, tag inserts, commit. A raising statement rolls
      the open transaction back. */
  function StorePlan(db: Db, p: Plan, month: string, now: nat, fault: Fault): (r: (Db, Outcome))
    ensures Clean(r.0) && !r.1.Skipped?
    ensures r.1.Stored? <==> fault == NoFault
  {
    if fault.FailUpsert? then (Rollback(db), Raised("upsert failed"))
    else
      var (t1, id) := Upsert(db.working, Some(p.key), p.cols, db.nextId, now);
      var db1 := Db(db.durable, t1, db.nextId + 1);
      if fault.FailQuota? then (Rollback(db1), Raised("quota update failed"))
      else
        var db2 := Commit(db1.(working := t1.(quota := AddQuotaCounter(t1.quota, month, None))));
        if fault.FailHours? then (Rollback(db2), Raised("opening hours insert failed"))
        else
          var t3 := AddHours(db2.working, id, p.rows);
          if fault.FailTags? then (Rollback(db2.(working := t3)), Raised("type insert failed"))
          else (Commit(db2.(working := t3.(tags := AddTags(t3.tags, id, p.tys, p.primary)))), Stored(id))
  }

  /** Failing in the upsert or in the quota update leaves the committed
      state as it was. */
  lemma PlanFailsEarly(db: Db, p: Plan, month: string, now: nat, fault: Fault)
    requires fault == FailUpsert || fault == FailQuota
    ensures StorePlan(db, p, month, now, fault).0.durable == db.durable
  {
  }

  /** A failure after the quota update rolls back only the hours and tags:
      the restaurant row and the quota counts stay committed. */
  lemma PlanFailsLate(db: Db, p: Plan, month: string, now: nat, fault: Fault)
    requires fault == FailHours || fault == FailTags
    ensures var (after, out) := StorePlan(db, p, month, now, fault);
            && out.Raised?
            && p.key in after.durable.keyed
            && after.durable.keyed[p.key].cols == p.cols
            && after.durable.hours == db.working.hours
            && after.durable.tags == db.working.tags
            && after.durable.quota == AddQuotaCounter(db.working.quota, month, None)
  {
  }

  /** A successful run commits the row under its key, appends the hours
      rows and adds the tags, keeping every earlier tag. */
  lemma PlanStored(db: Db, p: Plan, month: string, now: nat)
    ensures var (after, out) := StorePlan(db, p, month, now, NoFault);
            && out.Stored?
            && p.key in after.durable.keyed
            && after.durable.keyed[p.key].id == out.id
            && after.durable.keyed[p.key].cols == p.cols
            && (p.key in db.working.keyed ==> out.id == db.working.keyed[p.key].id)
            && after.durable.keyed.Keys == db.working.keyed.Keys + {p.key}
            && after.durable.hours == db.working.hours + Stamped(out.id, p.rows)
            && (forall k :: k in db.working.tags ==> k in after.durable.tags && after.durable.tags[k] == db.working.tags[k])
  {
    var (t1, id) := Upsert(db.working, Some(p.key), p.cols, db.nextId, now);
    assert t1.hours == db.working.hours;
  }

  /** Storing the same restaurant twice keeps one row with one id but lists
      its hours twice: hours rows are appended, never replaced. */
  lemma PlanRerunDuplicatesHours(db: Db, p: Plan, month: string, now1: nat, now2: nat)
    ensures var (once, out1) := StorePlan(db, p, month, now1, NoFault);
            var (twice, out2) := StorePlan(once, p, month, now2, NoFault);
            && out2 == out1
            && twice.durable.keyed.Keys == once.durable.keyed.Keys
            && twice.durable.hours == db.working.hours + Stamped(out1.id, p.rows) + Stamped(out1.id, p.rows)
  {
    var (once, out1) := StorePlan(db, p, month, now1, NoFault);
    PlanStored(db, p, month, now1);
    PlanStored(once, p, month, now2);
  }

  /** `process_and_store` for one restaurant. `month` and `now` stand for
      the clock; `fault` names the statement that raises, if any. Nothing
      happens without a place id or details; a missing address or location
      raises before any write. */
  function ProcessAndStore(db: Db, name: string, googleId: Option<string>, details: Option<PlaceDetails>,
                           month: string, now: nat, fault: Fault): (r: (Db, Outcome))
    ensures r.1.Skipped? <==> googleId.None? || googleId == Some("") || details.None? || NoDetails(details.value)
    ensures r.1.Skipped? ==> r.0 == db
    ensures !r.1.Skipped? ==> Clean(r.0)
    ensures r.1.Stored? <==> Storable(googleId, details) && fault == NoFault
    ensures !r.1.Skipped? && !Storable(googleId, details) ==> r == (Rollback(db), r.1) && r.1.Raised?
    ensures Storable(googleId, details) ==>
              r == StorePlan(db, PlanOf(name, googleId.value, details.value), month, now, fault)
  {
    if googleId.None? || googleId.value == "" || details.None? || NoDetails(details.value) then (db, Skipped)
    else
      var d := details.value;
      if d.formattedAddress.None? || d.formattedAddress.value == "" then (Rollback(db), Raised("Missing address data"))
      else if d.location.None? then (Rollback(db), Raised("KeyError: 'location'"))
      else StorePlan(db, PlanOf(name, googleId.value, d), month, now, fault)
  }

  /** A run with nothing storable, or failing in the upsert or the quota
      update, leaves the committed state as it was. */
  lemma EarlyFailureWritesNothing(db: Db, name: string, googleId: Option<string>, details: Option<PlaceDetails>,
                                  month: string, now: nat, fault: Fault)
    requires !Storable(googleId, details) || fault == FailUpsert || fault == FailQuota
    ensures ProcessAndStore(db, name, googleId, details, month, now, fault).0.durable == db.durable
  {
    if Storable(googleId, details) {
      PlanFailsEarly(db, PlanOf(name, googleId.value, details.value), month, now, fault);
    }
  }

  /** The quota update commits the open transaction: when the hours or tag
      inserts fail, the restaurant row stays committed with the parsed
      address, and only the hours and tags are rolled back. */
  lemma RestaurantDurableWhenHoursFail(db: Db, name: string, googleId: Option<string>, details: Option<PlaceDetails>,
                                       month: string, now: nat, fault: Fault)
    requires Storable(googleId, details) && (fault == FailHours || fault == FailTags)
    ensures var (after, out) := ProcessAndStore(db, name, googleId, details, month, now, fault);
            && out.Raised?
            && googleId.value in after.durable.keyed
            && after.durable.keyed[googleId.value].cols.address == Parse(AirflowStreetTypes, details.value.formattedAddress)
            && after.durable.hours == db.working.hours
            && after.durable.tags == db.working.tags
  {
    PlanFailsLate(db, PlanOf(name, googleId.value, details.value), month, now, fault);
  }

  /** Storing the same place twice keeps one restaurant row but lists its
      opening hours twice. */
  lemma RerunDuplicatesHours(db: Db, name: string, googleId: Option<string>, details: Option<PlaceDetails>,
                             month: string, now1: nat, now2: nat)
    requires Storable(googleId, details)
    ensures var (once, out1) := ProcessAndStore(db, name, googleId, details, month, now1, NoFault);
            var (twice, out2) := ProcessAndStore(once, name, googleId, details, month, now2, NoFault);
            var rows := Stamped(out1.id, AirflowHoursRows(details.value));
            && out2 == out1
            && twice.durable.hours == db.working.hours + rows + rows
  {
    var p := PlanOf(name, googleId.value, details.value);
    PlanRerunDuplicatesHours(db, p, month, now1, now2);
  }
}
