/** The older Lambda's DynamoDB writer: the place details become an item
    whose every optional field is present (null when the API left it out),
    and an existing restaurant is refreshed with an `update_item` whose
    expression sets every field except the two key fields. */
module Dynamo {
  import opened Wrappers
  import opened Text
  import opened Places
  import opened Hours

  /** The values an item field can hold. */
  datatype Value =
    | Null
    | Str(s: string)
    | Flag(b: bool)
    | Strings(items: seq<string>)
    | Text(t: LocalizedText)
    | Schedule(entries: seq<StoredHours>)

  /** The item `process_google_fields` builds. `displayName` is the API's
      whole `{"text": ...}` object, or `''` without one. `insertedAt` and
      `updatedAt` stand for `datetime.now()`, a parameter here. */
  datatype DynamoItem = DynamoItem(
    googleId: Option<string>,
    googleName: string,
    displayName: Value,
    googleUrl: string,
    address: string,
    latitude: string,
    longitude: string,
    insertedAt: string,
    updatedAt: string,
    restaurantTypes: Option<seq<string>>,
    primaryType: Option<string>,
    businessStatus: Option<string>,
    website: Option<string>,
    descriptions: Option<seq<string>>,
    openingHours: Option<seq<StoredHours>>,
    editorialSummary: Option<string>,
    ratings: Option<string>,
    vegetarianFood: Option<bool>)

  function OrNull(v: Option<string>): Value {
    if v.Some? then Str(v.value) else Null
  }

  const ItemKeys: seq<string> :=
    ["google_id", "google_name", "google_display_name", "google_url", "address",
     "latitude", "longitude", "timestamp_insert", "timestamp_update",
     "restaurant_types", "primary_restaurant_type", "business_status", "website",
     "opening_hours_description", "opening_hours", "editorial_summary", "ratings",
     "vegetarian_food"]

  /** The field values in key order. */
  function Values(it: DynamoItem): (r: seq<Value>)
    ensures |r| == |ItemKeys|
  {
    [ OrNull(it.googleId),
      Str(it.googleName),
      it.displayName,
      Str(it.googleUrl),
      Str(it.address),
      Str(it.latitude),
      Str(it.longitude),
      Str(it.insertedAt),
      Str(it.updatedAt),
      if it.restaurantTypes.Some? then Strings(it.restaurantTypes.value) else Null,
      OrNull(it.primaryType),
      OrNull(it.businessStatus),
      OrNull(it.website),
      if it.descriptions.Some? then Strings(it.descriptions.value) else Null,
      if it.openingHours.Some? then Schedule(it.openingHours.value) else Null,
      OrNull(it.editorialSummary),
      OrNull(it.ratings),
      if it.vegetarianFood.Some? then Flag(it.vegetarianFood.value) else Null ]
  }

  function Zip(ks: seq<string>, vs: seq<Value>): (r: seq<(string, Value)>)
    requires |ks| == |vs|
    ensures |r| == |ks| && forall i :: 0 <= i < |ks| ==> r[i] == (ks[i], vs[i])
  {
    if ks == [] then [] else [(ks[0], vs[0])] + Zip(ks[1..], vs[1..])
  }

  /** The item as the ordered dictionary the source builds: the nine
      fixed keys, then the nine optional ones. */
  function Entries(it: DynamoItem): seq<(string, Value)> {
    Zip(ItemKeys, Values(it))
  }

  function Keys(entries: seq<(string, Value)>): (r: seq<string>)
    ensures |r| == |entries| && forall i :: 0 <= i < |entries| ==> r[i] == entries[i].0
  {
    if entries == [] then [] else [entries[0].0] + Keys(entries[1..])
  }

  /** Every item has the same eighteen keys, in the same order. */
  lemma EntriesKeys(it: DynamoItem)
    ensures Keys(Entries(it)) == ItemKeys
  {
  }

  /** `str(x)` of a coordinate the API may leave out: `''` then. */
  function CoordinateText(v: Option<string>): string {
    v.GetOr("")
  }

  /** Thin spaces removed from each description line; iterating a missing
      list raises. */
  function StoredDescriptions(oh: OpeningHours): (r: Result<seq<string>, string>)
    ensures r.Success? <==> oh.weekdayDescriptions.Some?
    ensures r.Success? ==> r.value == CleanLines(oh.weekdayDescriptions.value)
  {
    match oh.weekdayDescriptions
    case None => Failure("TypeError: 'NoneType' object is not iterable")
    case Some(ls) => Success(CleanLines(ls))
  }

  /** `process_google_fields` on the details the API returned. Reading
      `location` raises when it is missing; with opening hours present, a
      missing description list or a period without an opening raises. */
  function ProcessFields(googleId: Option<string>, name: string, d: PlaceDetails, now: string): (r: Result<DynamoItem, string>)
    ensures r.Failure? <==>
              || d.location.None?
              || (d.regularOpeningHours.Some? && d.regularOpeningHours.value.weekdayDescriptions.None?)
              || (d.regularOpeningHours.Some? && DynamoFormat(d.regularOpeningHours.value.periods).Failure?)
    ensures r.Success? ==>
              && r.value.googleId == googleId && r.value.googleName == name
              && (d.displayName.Some? ==> r.value.displayName == Text(d.displayName.value))
              && (d.displayName.None? ==> r.value.displayName == Str(""))
              && r.value.address == d.formattedAddress.GetOr("")
              && r.value.ratings == d.rating
              && r.value.vegetarianFood == d.servesVegetarianFood
              && r.value.primaryType == TextOf(d.primaryTypeDisplayName)
              && r.value.restaurantTypes == d.types
              && (r.value.openingHours.Some? <==> d.regularOpeningHours.Some?)
    ensures r.Success? ==>
              && r.value.googleUrl == d.googleMapsUri.GetOr("")
              && r.value.latitude == d.location.value.latitude.GetOr("")
              && r.value.longitude == d.location.value.longitude.GetOr("")
              && r.value.insertedAt == now && r.value.updatedAt == now
              && r.value.businessStatus == d.businessStatus
              && r.value.website == d.websiteUri
              && r.value.editorialSummary == TextOf(d.editorialSummary)
    ensures r.Success? && d.regularOpeningHours.None? ==>
              r.value.descriptions.None? && r.value.openingHours.None?
    ensures r.Success? && d.regularOpeningHours.Some? ==>
              && r.value.descriptions == Some(CleanLines(d.regularOpeningHours.value.weekdayDescriptions.value))
              && r.value.openingHours == Some(DynamoFormat(d.regularOpeningHours.value.periods).value)
  {
    if d.location.None? then Failure("KeyError: 'location'")
    else
      var loc := d.location.value;
      var hours: Result<(Option<seq<string>>, Option<seq<StoredHours>>), string> :=
        match d.regularOpeningHours
        case None => Success((None, None))
        case Some(oh) =>
          match StoredDescriptions(oh)
          case Failure(e) => Failure(e)
          case Success(ls) =>
            match DynamoFormat(oh.periods)
            case Failure(e) => Failure(e)
            case Success(entries) => Success((Some(ls), Some(entries)));
      if hours.Failure? then Failure(hours.error)
      else
        Success(DynamoItem(
          googleId, name,
          if d.displayName.Some? then Text(d.displayName.value) else Str(""),
          d.googleMapsUri.GetOr(""),
          d.formattedAddress.GetOr(""),
          CoordinateText(loc.latitude),
          CoordinateText(loc.longitude),
          now, now,
          d.types,
          TextOf(d.primaryTypeDisplayName),
          d.businessStatus,
          d.websiteUri,
          hours.value.0,
          hours.value.1,
          if d.editorialSummary.Some? then TextOf(d.editorialSummary) else None,
          d.rating,
          d.servesVegetarianFood))
  }

  // ---------------------------------------------------------------------
  // The update expression

  /** The key fields of the table, never part of an update. */
  predicate IsKeyField(k: string) {
    k == "google_id" || k == "google_name"
  }

  /** The keys an update sets, in item order. */
  function UpdateKeys(entries: seq<(string, Value)>): (r: seq<string>)
    ensures forall k :: k in r <==> !IsKeyField(k) && k in Keys(entries)
    ensures |r| <= |entries|
  {
    if entries == [] then []
    else (if IsKeyField(entries[0].0) then [] else [entries[0].0]) + UpdateKeys(entries[1..])
  }

  /** One `k = :k` clause. */
  function Clause(k: string): string {
    " " + k + " = :" + k
  }

  /** The clauses, each followed by a comma, in item order. */
  function ClauseText(keys: seq<string>): string {
    if keys == [] then [] else Clause(keys[0]) + "," + ClauseText(keys[1..])
  }

  function Clauses(keys: seq<string>): (r: seq<string>)
    ensures |r| == |keys| && forall i :: 0 <= i < |keys| ==> r[i] == Clause(keys[i])
  {
    if keys == [] then [] else [Clause(keys[0])] + Clauses(keys[1..])
  }

  /** `"".join(['set '] + clauses)[:-1]`: the last character, the final
      comma, is cut off. */
  function UpdateExpression(entries: seq<(string, Value)>): (r: string)
    ensures UpdateKeys(entries) == [] ==> r == "set"
  {
    var s := "set " + ClauseText(UpdateKeys(entries));
    s[..|s| - 1]
  }

  /** With something to set, the expression is `set ` followed by the
      clauses separated by commas: no comma is left at the end. */
  lemma ExpressionJoinsClauses(entries: seq<(string, Value)>)
    requires UpdateKeys(entries) != []
    ensures UpdateExpression(entries) == "set " + Join(",", Clauses(UpdateKeys(entries)))
  {
    var keys := UpdateKeys(entries);
    ClauseTextIsJoin(keys);
    var s := "set " + ClauseText(keys);
    var j := Join(",", Clauses(keys));
    assert s == ("set " + j) + ",";
    assert s[..|s| - 1] == "set " + j;
  }

  lemma {:induction false} ClauseTextIsJoin(keys: seq<string>)
    requires keys != []
    ensures ClauseText(keys) == Join(",", Clauses(keys)) + ","
  {
    if |keys| > 1 {
      ClauseTextIsJoin(keys[1..]);
      assert Clauses(keys)[1..] == Clauses(keys[1..]);
    }
  }

  /** The expression attribute values: `:k` for each key set. */
  function UpdateValues(entries: seq<(string, Value)>): (r: seq<(string, Value)>)
    ensures forall p :: p in r <==> exists e :: e in entries && !IsKeyField(e.0) && p == (":" + e.0, e.1)
  {
    if entries == [] then []
    else (if IsKeyField(entries[0].0) then [] else [(":" + entries[0].0, entries[0].1)])
         + UpdateValues(entries[1..])
  }

  /** Every clause's placeholder has a value, in the same position. */
  lemma {:induction false} PlaceholdersHaveValues(entries: seq<(string, Value)>)
    ensures |UpdateValues(entries)| == |UpdateKeys(entries)|
    ensures forall i :: 0 <= i < |UpdateKeys(entries)| ==>
              UpdateValues(entries)[i].0 == ":" + UpdateKeys(entries)[i]
  {
    if entries != [] {
      PlaceholdersHaveValues(entries[1..]);
    }
  }

  /** The requests `save_to_dynamo` sends. */
  datatype Request =
    | PutItem(item: seq<(string, Value)>)
    | UpdateItem(id: Value, name: Value, expression: string, values: seq<(string, Value)>)

  /** `save_to_dynamo`: a client given an id updates the item keyed by the
      item's own id and name; a client without one puts the whole item. */
  function Save(clientId: Option<string>, it: DynamoItem): (r: Request)
    ensures r.PutItem? <==> clientId.None? || clientId == Some("")
    ensures r.PutItem? ==> r.item == Entries(it)
    ensures r.UpdateItem? ==> r.id == OrNull(it.googleId) && r.name == Str(it.googleName)
  {
    if clientId.Some? && clientId.value != "" then
      var entries := Entries(it);
      UpdateItem(OrNull(it.googleId), Str(it.googleName), UpdateExpression(entries), UpdateValues(entries))
    else
      PutItem(Entries(it))
  }

  /** An update sets every field of the item except the two key fields,
      in item order. */
  lemma UpdateCoversAllButKeys(it: DynamoItem)
    ensures UpdateKeys(Entries(it)) == ItemKeys[2..]
  {
    EntriesKeys(it);
    OnlyFirstTwoAreKeys();
    UpdateKeysAfterKeyFields(Entries(it), ItemKeys);
  }

  /** Entries whose keys are the two key fields and then only other
      fields: the update sets the others, in order. */
  lemma UpdateKeysAfterKeyFields(e: seq<(string, Value)>, ks: seq<string>)
    requires Keys(e) == ks && |ks| >= 2 && IsKeyField(ks[0]) && IsKeyField(ks[1])
    requires forall i :: 2 <= i < |ks| ==> !IsKeyField(ks[i])
    ensures UpdateKeys(e) == ks[2..]
  {
    assert e[0].0 == ks[0] && e[1].0 == ks[1];
    SkipKeyFields(e);
    forall i | 0 <= i < |e[2..]|
      ensures !IsKeyField(e[2..][i].0)
    {
      assert e[2..][i].0 == ks[i + 2];
    }
    AllUpdatable(e[2..]);
    KeysDrop(e, 2);
  }

  lemma SkipKeyFields(e: seq<(string, Value)>)
    requires |e| >= 2 && IsKeyField(e[0].0) && IsKeyField(e[1].0)
    ensures UpdateKeys(e) == UpdateKeys(e[2..])
  {
    var a := e[..2];
    assert IsKeyField(a[0].0) && IsKeyField(a[1].0);
    assert e == a + e[2..];
    UpdateKeysSkip(a, e[2..]);
  }

  lemma KeysDrop(e: seq<(string, Value)>, n: nat)
    requires n <= |e|
    ensures Keys(e[n..]) == Keys(e)[n..]
  {
  }

  lemma OnlyFirstTwoAreKeys()
    ensures forall i :: 2 <= i < |ItemKeys| ==> !IsKeyField(ItemKeys[i])
  {
  }

  lemma {:induction false} UpdateKeysSkip(a: seq<(string, Value)>, b: seq<(string, Value)>)
    requires forall i :: 0 <= i < |a| ==> IsKeyField(a[i].0)
    ensures UpdateKeys(a + b) == UpdateKeys(b)
  {
    if a != [] {
      assert (a + b)[0] == a[0] && (a + b)[1..] == a[1..] + b;
      assert IsKeyField(a[0].0);
      assert UpdateKeys(a + b) == UpdateKeys(a[1..] + b);
      UpdateKeysSkip(a[1..], b);
    } else {
      assert a + b == b;
    }
  }

  lemma {:induction false} AllUpdatable(es: seq<(string, Value)>)
    requires forall i :: 0 <= i < |es| ==> !IsKeyField(es[i].0)
    ensures UpdateKeys(es) == Keys(es)
  {
    if es != [] {
      AllUpdatable(es[1..]);
    }
  }
}
