/** The place-detail record returned by the places API, as the pipeline
    reads it. Every key of the JSON object may be missing, so every field is
    an `Option`: `None` is a missing key. Floating-point values (coordinates,
    rating) are kept as the text Python's `str()` would print for them. */
module Places {
  import opened Wrappers

  /** An object of the form `{"text": ...}` (display name, summary, ...). */
  datatype LocalizedText = LocalizedText(text: Option<string>)

  datatype Location = Location(latitude: Option<string>, longitude: Option<string>)

  /** One end of an opening period: `{"day": d, "hour": h, "minute": m}`,
      day 0 being Sunday. */
  datatype TimePoint = TimePoint(day: Option<int>, hour: Option<int>, minute: Option<int>)

  datatype Period = Period(open: Option<TimePoint>, close: Option<TimePoint>)

  datatype OpeningHours = OpeningHours(
    periods: Option<seq<Period>>,
    weekdayDescriptions: Option<seq<string>>)

  datatype PlaceDetails = PlaceDetails(
    displayName: Option<LocalizedText>,
    formattedAddress: Option<string>,
    location: Option<Location>,
    googleMapsUri: Option<string>,
    types: Option<seq<string>>,
    primaryTypeDisplayName: Option<LocalizedText>,
    websiteUri: Option<string>,
    regularOpeningHours: Option<OpeningHours>,
    businessStatus: Option<string>,
    editorialSummary: Option<LocalizedText>,
    rating: Option<string>,
    priceLevel: Option<string>,
    servesVegetarianFood: Option<bool>)

  /** Python's `d.get(key, {}).get("text", None)` on a localized-text key. */
  function TextOf(t: Option<LocalizedText>): Option<string> {
    match t
    case None => None
    case Some(lt) => lt.text
  }
}
