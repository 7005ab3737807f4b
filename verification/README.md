# Restaurant map ingestion, modelled in Dafny

This project models the ingestion side of the restaurant map. A saved
Google Maps list of restaurant names is reconciled against a store. Each
new place is looked up in the Google Places API, and its details are
normalised and written. There are two generations of that pipeline, plus
the one-off migration between them:

- **The DynamoDB lambdas.**
  - `create_delete` puts a record for every listed name that is not stored yet. Then, for every stored record whose name has left the list, it calls `delete_from_dynamo`. That call is an `update_item` with only a condition on the two keys, so it removes nothing.
  - `update_monthly` refreshes the records whose name is still listed.
  - `DynamoClient.process_google_fields` turns the place details into one DynamoDB item: the opening periods are re-shaped into day entries, and thin spaces are removed from the descriptions.
  - `save_to_dynamo` writes the item as a put, or as an update expression over every non-key attribute.
- **The Airflow task.**
  - `get_restaurants_to_insert` keeps the names Postgres does not know.
  - `process_and_store` parses the formatted address into street type, name, number, complement, neighbourhood, postal code, city, state and country.
  - It then upserts the restaurant row and bumps the monthly quota counters, which commits.
  - It then appends the opening-hours rows, one per opening period plus one per closed weekday.
  - Finally it adds the type tags and commits.
- **The migration.** It copies the DynamoDB export into Postgres. Each restaurant is committed on its own, and the first exception ends the batch.

The files, each one module:

| file | module | what it holds |
|---|---|---|
| `wrappers.dfy` | `Wrappers` | `Option` and `Result` |
| `text.dfy` | `Text` | character classes, `strip`, `split`/`join`, whitespace collapsing, `rfind`, `replace`, `str(int)`, `zfill(2)` |
| `places.dfy` | `Places` | the place-details record; every key may be missing |
| `address.dfy` | `Address` | `parse_street_name`: each regular expression as a "matches at i" predicate plus a leftmost search; both street-type tables |
| `typical.dfy` | `TypicalAddress` | `parse_street_name` end to end on the usual "street, number - neighbourhood, city - UF, postal code, country" layout |
| `hours.dfy` | `Hours` | day names, the Airflow, DynamoDB and migration hours formats, and the description text |
| `reconcile.dfy` | `Reconcile` | the name filters, the `create_delete` and `update_monthly` handlers |
| `dynamo.dfy` | `Dynamo` | `process_google_fields`, `save_to_dynamo` and its update expression |
| `store.dfy` | `Store` | Postgres tables as maps, the connection and its transaction, the Airflow task |
| `migration.dfy` | `Migration` | `insert_restaurants_to_db` |

Things the model gets from its caller rather than computing:

- The clock, as `now` and `month`.
- The Google responses, as `googleId` and `details`.
- DynamoDB scans, as sequences of `StoredItem`.
- Database errors that the code cannot see in advance, as a `fault` parameter naming the statement that raises.
- Lambda writes that raise, as a `failing` set of indices into the planned puts or saves.

A Python exception is a `Failure`/`Raised`/`error` value carrying the
exception's text. Rows the code would write are values in the tables. The
model follows the code, including the behaviour listed under "Behaviour
worth noting" below.

## Model

| member | source | states |
|---|---|---|
| `Text.Trim` | airflow/dags/utils/task_functions.py:349 | `strip` leaves no stripped character at either end, never lengthens, and changes nothing when both ends are already clean |
| `Text.TrimKeepsMiddle` | airflow/dags/utils/task_functions.py:349 | the stripped text sits inside the original, and everything cut from either end is a stripped character |
| `Text.JoinSplit` | airflow/dags/utils/task_functions.py:366-369 | joining the comma-split parts with a comma gives the text back |
| `Text.SplitAppend` | airflow/dags/utils/task_functions.py:366-369 | a text, a separator and a separator-free piece split into the text's own parts followed by that piece |
| `Text.SplitLastPart` | airflow/dags/utils/task_functions.py:366-369 | the last comma-split part is the text after the last comma and the other parts rejoin to the text before it; without a comma the only part is the whole text |
| `Text.SplitJoin` | airflow/dags/utils/task_functions.py:366-369 | splitting a comma-join of comma-free parts gives the parts back |
| `Text.CollapseIsCollapsed` | airflow/dags/utils/task_functions.py:344 | `' '.join(s.split())` leaves no leading, trailing, doubled or non-space whitespace |
| `Text.CollapseIdempotent` | airflow/dags/utils/task_functions.py:344 | collapsing whitespace twice is collapsing it once |
| `Text.CollapseKeepsWords` | airflow/dags/utils/task_functions.py:344 | collapsing keeps the words: `split()` of the collapsed text is `split()` of the text |
| `Text.WordsOfJoin` | airflow/dags/utils/task_functions.py:344 | joining space-free non-empty words with one space splits back into those words |
| `Text.CollapseFixesCollapsed` | airflow/dags/utils/task_functions.py:344 | text that is already single spaced with clean ends is left as it is |
| `Text.FindLast` | airflow/dags/utils/task_functions.py:433 | `rfind` returns an occurrence with none after it, and fails only when there is no occurrence |
| `Text.RemoveChar` | airflow/dags/utils/task_functions.py:355 | `replace(c, '')` leaves no `c`, drops exactly the copies of `c`, keeps the count of every other character, and changes nothing without a `c`; a single character is kept iff it is not `c` |
| `Text.RemoveCharAppend` | airflow/dags/utils/task_functions.py:355 | removing a character from a concatenation removes it from each part, so the other characters keep their order |
| `Text.ReplaceAll` | airflow/dags/utils/task_functions.py:356 | deleting a pattern never lengthens the text, and shortens it by at least the pattern's length when the text starts with it; no occurrence leaves the text alone |
| `Text.ReplaceAllAbsent` | airflow/dags/utils/task_functions.py:356 | a text without the pattern is left as it is |
| `Text.ReplaceAllAtFirst` | airflow/dags/utils/task_functions.py:356 | at the leftmost occurrence, the text before it is kept, the occurrence is replaced, and the search goes on after it |
| `Text.DeleteFromFirst` | airflow/dags/utils/task_functions.py:356 | deleting a pattern keeps the text before its first occurrence and deletes on from the end of that occurrence |
| `Text.NatToStringRoundTrip` | airflow/dags/utils/task_functions.py:282-283 | the decimal text `str()` gives for a natural number reads back as that number |
| `Text.ZFill2` | airflow/dags/utils/task_functions.py:282-283 | `str(n).zfill(2)` is two digits spelling `n` for `0 <= n < 100`, and never shorter than two |
| `Address.FindCountry` | airflow/dags/utils/task_functions.py:347 | the country expression matches at most at one place, the one returned; none means no match anywhere |
| `Address.ExtractCountry` | airflow/dags/utils/task_functions.py:347-350 | a country is found iff the expression matches; it is the stripped text after the match, and the address is cut before it |
| `Address.CountryAfterLastComma` | airflow/dags/utils/task_functions.py:347-350 | at the last comma, the country is the stripped text after it and the address is cut there, unless the comma is the final character |
| `Address.NoCommaNoCountry` | airflow/dags/utils/task_functions.py:347-350 | text without a comma has no country and is left as it is |
| `Address.FindPostal` | airflow/dags/utils/task_functions.py:353 | the postal-code search returns the leftmost match at or after the start |
| `Address.ExtractPostalCode` | airflow/dags/utils/task_functions.py:353-356 | a postal code is found iff the expression matches somewhere; it is eight digits and the address loses at least eight characters; without a match the address is unchanged |
| `Address.PostalRemainder` | airflow/dags/utils/task_functions.py:353-356 | the address left is the text before the match followed by the text after it with every later copy of the match deleted, stripped of spaces and commas, when the match text does not occur before the match |
| `Address.PostalCodeIsFirstMatch` | airflow/dags/utils/task_functions.py:353-355 | the postal code is the leftmost match with its dash removed |
| `Address.PostalCodeDigits` | airflow/dags/utils/task_functions.py:355 | a match without its dash is exactly eight digits |
| `Address.PostalMatchRemoved` | airflow/dags/utils/task_functions.py:356 | deleting every copy of the match shortens the address by at least eight characters |
| `Address.FindState` | airflow/dags/utils/task_functions.py:359 | the state search returns the leftmost match, none meaning no match anywhere |
| `Address.StateMatchUnique` | airflow/dags/utils/task_functions.py:359 | the anchored state expression matches in at most one place |
| `Address.ExtractState` | airflow/dags/utils/task_functions.py:359-362 | a state is found iff the expression matches; it is two capital letters |
| `Address.StateFromMatch` | airflow/dags/utils/task_functions.py:359-362 | the state is the two letters after the dash, and the address is cut at the dash |
| `Address.CityIsLastSegment` | airflow/dags/utils/task_functions.py:365-369 | the city is the stripped text after the last comma, or the whole text without a comma; what precedes the comma is left |
| `Address.CleanParts` | airflow/dags/utils/task_functions.py:376 | the kept segments are non-empty and already stripped, and there are no more of them than segments |
| `Address.CleanPartsOne` | airflow/dags/utils/task_functions.py:376 | one segment is kept, stripped, iff it is not blank |
| `Address.CleanPartsAppend` | airflow/dags/utils/task_functions.py:376 | the segments of a concatenation are cleaned part by part, so the kept segments stay in order |
| `Address.StreetTypeAndName` | airflow/dags/utils/task_functions.py:385-395 | the street type is a table token that starts the segment; there is none iff no token does, and then the name is the stripped segment |
| `Address.AbbreviatedTypeKept` | airflow/dags/utils/task_functions.py:385-395 | a segment starting "Av." has type "Av." and the stripped rest as its name |
| `Address.StreetTablesAgree` | migration_dynamo_to_postgres.py:70-72 | the migration's table gives the same type and name as the Airflow one, except where the Airflow table finds "Pç.": there the migration finds no type and keeps the stripped segment as the name |
| `Address.NumberTokenMatchesHouseNumber` | airflow/dags/utils/task_functions.py:407 | the token reader accepts a whole segment exactly when `^\d+[A-Za-z]?$` matches it |
| `Address.NumberDashRest` | airflow/dags/utils/task_functions.py:412 | a number-dash-rest match yields a house number that starts the segment and a non-empty rest ending it |
| `Address.NumberDashRestMeaning` | airflow/dags/utils/task_functions.py:412 | there is a result iff `^(\d+[A-Za-z]?)\s*-\s*(.+)$` matches the segment, and the number returned is the matching one |
| `Address.NumberSpaceRest` | airflow/dags/utils/task_functions.py:419 | a number-space-rest match yields a house number that starts the segment and a non-empty rest ending it |
| `Address.NumberSpaceRestMeaning` | airflow/dags/utils/task_functions.py:419 | there is a result iff `^(\d+[A-Za-z]?)\s+(.+)$` matches the segment, and the number returned is the matching one |
| `Address.TakeNumber` | airflow/dags/utils/task_functions.py:401-422 | a number taken is a house number; without one the segments are untouched; with one the first segment is consumed or replaced by its rest |
| `Address.TakeNumberWhen` | airflow/dags/utils/task_functions.py:401-422 | a number is taken iff the cleaned first segment is a house number or matches one of the two number-and-rest expressions, and it is a prefix of that segment |
| `Address.TakeNumberRest` | airflow/dags/utils/task_functions.py:401-422 | a bare house number is taken and its segment dropped; otherwise the first expression that matches gives the number and puts its rest back as the first segment |
| `Address.NumberAlone` | airflow/dags/utils/task_functions.py:407-409 | a segment that is a house number is taken whole and dropped |
| `Address.NumberBeforeDash` | airflow/dags/utils/task_functions.py:412-416 | "275 - Pinheiros" yields number 275 and leaves "Pinheiros" as the segment |
| `Address.NumberBeforeSpace` | airflow/dags/utils/task_functions.py:419-422 | "275 Pinheiros" yields number 275 and leaves "Pinheiros" as the segment |
| `Address.ComplementPieces` | airflow/dags/utils/task_functions.py:447-453 | the pieces are exactly the segments with edge dashes and spaces trimmed that are non-empty; when none is blank they are all the trimmed segments, in order |
| `Address.NonEmptyAppend` | airflow/dags/utils/task_functions.py:452-453 | dropping blank pieces from a concatenation drops them from each part, so the pieces keep their order |
| `Address.SplitTail` | airflow/dags/utils/task_functions.py:425-456 | a neighbourhood is found iff segments remain; it is the stripped text after the last " - " of the cleaned last segment, or that whole segment; the complement is built from the other segments plus the non-empty text before that dash |
| `Address.ComplementJoin` | airflow/dags/utils/task_functions.py:447-456 | clean pieces give no complement when there are none and otherwise their " - " join |
| `Address.ComplementBeforeLastDash` | airflow/dags/utils/task_functions.py:433-439 | "loja 14 - Consolação" yields neighbourhood "Consolação" and complement "loja 14" |
| `Address.ParseStreet` | airflow/dags/utils/task_functions.py:372-458 | no non-empty segment gives no street fields; otherwise the type and name come from the first segment, the number from the second, and the complement and neighbourhood from what remains; a type is from the table and a number is a house number |
| `Address.CutRight` | airflow/dags/utils/task_functions.py:343-369 | the country, postal code, state and city steps only ever shorten the address |
| `Address.Parse` | airflow/dags/utils/task_functions.py:324-458 | a missing or empty address gives no fields; otherwise the country, postal code, state and city are cut from the right of the collapsed text and the street fields read from what is left; a postal code is eight digits, a state two capitals, a type from the table |
| `Address.ParseTablesAgree` | migration_dynamo_to_postgres.py:8-143 | the migration's parser and the Airflow one agree on every address except in the type and name of a "Pç." street |
| `TypicalAddress.ParseTypical` | airflow/dags/utils/task_functions.py:324-458 | every address "street, n - neighbourhood, city - UF, 00000-000, country" with single-spaced, comma-free, digit-free text parts and a number of up to four digits parses into exactly those fields, with the type and name read from the street |
| `TypicalAddress.TypicalTail` | airflow/dags/utils/task_functions.py:343-369 | on that layout, the right-hand steps give the country, the eight-digit postal code, the state and the city, and leave "street, n - neighbourhood" |
| `TypicalAddress.StreetPartOfTypical` | airflow/dags/utils/task_functions.py:372-458 | "street, n - neighbourhood" gives the street's type and name, number n, no complement and that neighbourhood |
| `Hours.DayName` | airflow/dags/utils/task_functions.py:234-254 | a day name exists exactly for 0..6, Sunday first |
| `Hours.DayNameInjective` | airflow/dags/utils/task_functions.py:245-254 | different days have different names |
| `Hours.StoredDayName` | migration_dynamo_to_postgres.py:146-157 | a stored day text has a name iff it is one digit 0..6 |
| `Hours.StoredDayReadBack` | migration_dynamo_to_postgres.py:146-157 | the day text the lambda stores reads back in the migration as the name Airflow gives that day |
| `Hours.ClockTextRoundTrip` | airflow/dags/utils/task_functions.py:282-284 | "HH:MM" for hours and minutes below 100 is five characters whose two halves read back as the hour and minute |
| `Hours.OpenedDays` | airflow/dags/utils/task_functions.py:304-308 | a day is open iff some period opens with that day |
| `Hours.ClosedDays` | airflow/dags/utils/task_functions.py:311-320 | the closed days are exactly the weekdays not opened, in increasing order |
| `Hours.FormatPeriods` | airflow/dags/utils/task_functions.py:256-322 | no periods give no rows; otherwise one open row per period, in order, then one closed row per weekday no period opens |
| `Hours.SevenRows` | airflow/dags/utils/task_functions.py:272-322 | periods opening on distinct weekdays give exactly seven rows |
| `Hours.EveryDayHasOneKindOfRow` | airflow/dags/utils/task_functions.py:278-320 | each weekday has a closed row iff no period opens on it |
| `Hours.DynamoFormat` | archive/lambdas/create_delete/service/dynamodb.py:126-168 | a period without an opening raises KeyError; otherwise the first items are the periods' open days, as text, in order |
| `Hours.DayZeroBothOpenAndClosed` | archive/lambdas/create_delete/service/dynamodb.py:135-166 | an opening without a day is filed as day "0", and day "0" is then also listed as closed |
| `Hours.MigrateHours` | migration_dynamo_to_postgres.py:243-262 | a missing list gives no rows; a row comes from each non-empty item and from nothing else; with every item non-empty, one row per item, in order |
| `Hours.MigrateItems` | migration_dynamo_to_postgres.py:244-262 | a row comes from each non-empty item and from nothing else; with every item non-empty, one row per item, in order |
| `Hours.MigrateOneItem` | migration_dynamo_to_postgres.py:245-262 | one item gives its row when it is non-empty and no row when it is empty |
| `Hours.MigrateAppend` | migration_dynamo_to_postgres.py:244-262 | the rows of a concatenation are the rows of each part, in order |
| `Hours.MigrationMatchesAirflow` | migration_dynamo_to_postgres.py:243-262 | hours stored by the lambda and copied by the migration are the rows the Airflow task writes for the same periods |
| `Hours.CleanLines` | archive/lambdas/create_delete/service/dynamodb.py:194-195 | each description line loses its thin spaces and nothing else changes |
| `Hours.FormatDescription` | airflow/dags/utils/task_functions.py:214-232 | no text iff the list is missing or empty; the text holds no thin space and no newline |
| `Hours.JoinedDescription` | migration_dynamo_to_postgres.py:235 | no text iff the list is missing or empty; one line is kept as it is |
| `Hours.DescriptionJoinsCleanLines` | airflow/dags/utils/task_functions.py:227-230 | for newline-free lines the Airflow text is the cleaned lines joined with ", " |
| `Hours.DescriptionsAgree` | migration_dynamo_to_postgres.py:235 | joining the lambda's cleaned lines gives the text the Airflow task stores |
| `Hours.RemoveThinSpaces` | airflow/dags/utils/task_functions.py:227-230 | removing thin spaces after the newline join is joining the cleaned lines |
| `Hours.NewlinesToCommas` | airflow/dags/utils/task_functions.py:227-230 | turning the join's newlines into ", " is joining with ", ", when no line holds a newline |
| `Reconcile.Missing` | old/lambdas/create_delete/handler.py:19-22 | a name is kept iff it is listed and not known |
| `Reconcile.MissingCounts` | airflow/dags/utils/task_functions.py:736-752 | a name not known is kept as often as it is listed; a known one never |
| `Reconcile.MissingAppend` | old/lambdas/create_delete/handler.py:19-22 | filtering keeps list order: the filter of a concatenation is the concatenation of the filters |
| `Reconcile.MissingIdempotent` | old/lambdas/create_delete/handler.py:19-22 | filtering twice is filtering once |
| `Reconcile.ExistingNames` | old/lambdas/create_delete/handler.py:11-14 | one name per scanned item, '' for an item without a name |
| `Reconcile.NamesToPut` | old/lambdas/create_delete/handler.py:19-22 | a name is created iff it is listed and no scanned item carries it |
| `Reconcile.DeleteTargets` | old/lambdas/create_delete/handler.py:34-37 | a rescanned item is a delete target iff its name is missing or not listed |
| `Reconcile.HandlerAsWritten` | old/lambdas/create_delete/handler.py:5-44 | the run ends cleanly iff every put succeeds and something is put or there is no delete target; it raises `UnboundLocalError` iff every put succeeds, nothing is put and there is a delete target; any raise comes after a prefix of the puts and before any `delete_from_dynamo` call |
| `Reconcile.Attempt` | old/lambdas/create_delete/handler.py:24-28 | the writes done are the planned ones up to the first failing one; the run raises iff some planned write fails |
| `Reconcile.Handler` | old/lambdas/create_delete/handler.py:5-44 | as intended: with every put succeeding, puts exactly the missing listed names and calls `delete_from_dynamo` for exactly the delete targets; a failing put stops it after the earlier puts |
| `Reconcile.NoNamePutAndDeleted` | old/lambdas/create_delete/handler.py:19-42 | no name is both created and a delete target in one run |
| `Reconcile.HandlerAgreesWhenSomethingPut` | old/lambdas/create_delete/handler.py:24-42 | when something is created, or there is no delete target, the handler as written does what was intended |
| `Reconcile.HandlerAsWrittenSkipsDeletes` | old/lambdas/create_delete/handler.py:36-38 | with every listed name stored and one stored name delisted, the handler raises before its `delete_from_dynamo` call, which the intended handler makes |
| `Reconcile.Selected` | ratatouille-map/lambdas/update_monthly/handler.py:18-21 | a listed name is selected iff it occurs inside some scanned name |
| `Reconcile.WritesFor` | ratatouille-map/lambdas/update_monthly/handler.py:24-30 | a name is written once per scanned item with exactly that name, with that item's id |
| `Reconcile.MonthlyUpdate` | ratatouille-map/lambdas/update_monthly/handler.py:5-30 | every write is for a listed name equal to a scanned item's name, carrying that item's id |
| `Reconcile.MonthlyRun` | ratatouille-map/lambdas/update_monthly/handler.py:23-32 | the saves done are the planned ones up to the first that raises; without a failing save they are all the writes for the listed names |
| `Reconcile.ExactNameSelected` | ratatouille-map/lambdas/update_monthly/handler.py:18-21 | a listed name equal to a stored one is selected |
| `Reconcile.EmptyNameSelected` | ratatouille-map/lambdas/update_monthly/handler.py:11-21 | the empty name is selected whenever anything is stored |
| `Reconcile.ProperSubstringNotWritten` | ratatouille-map/lambdas/update_monthly/handler.py:18-30 | a name selected only as part of a longer stored name is never written |
| `Reconcile.SelectionChangesNoWrite` | ratatouille-map/lambdas/update_monthly/handler.py:18-30 | the writes are those for every listed name: the substring selection filters out nothing that would be written |
| `Dynamo.EntriesKeys` | archive/lambdas/create_delete/service/dynamodb.py:173-210 | an item's attributes come in the order the dict is built: the two keys, the fixed fields, then the optional ones |
| `Dynamo.StoredDescriptions` | archive/lambdas/create_delete/service/dynamodb.py:194-195 | the description lines are stored cleaned of thin spaces; a missing list raises |
| `Dynamo.ProcessFields` | archive/lambdas/create_delete/service/dynamodb.py:170-212 | raises iff the location is missing, or hours come without descriptions or with a period lacking an opening; otherwise every attribute is copied with its default: the URL and coordinates as "" when missing, the display name as "", the descriptions cleaned, the hours in the DynamoDB format, both timestamps `now` |
| `Dynamo.UpdateKeys` | archive/lambdas/create_delete/service/dynamodb.py:221-222 | an attribute is updated iff it is not `google_id` or `google_name` |
| `Dynamo.UpdateExpression` | archive/lambdas/create_delete/service/dynamodb.py:218-225 | with nothing to update the expression is "set" |
| `Dynamo.ExpressionJoinsClauses` | archive/lambdas/create_delete/service/dynamodb.py:218-225 | the expression is "set " followed by the clauses ` k = :k` joined with commas, no trailing comma |
| `Dynamo.UpdateValues` | archive/lambdas/create_delete/service/dynamodb.py:221-224 | the values are exactly the non-key attributes under their `:k` placeholder |
| `Dynamo.PlaceholdersHaveValues` | archive/lambdas/create_delete/service/dynamodb.py:221-224 | every placeholder of the expression has its value, in the same order |
| `Dynamo.Save` | archive/lambdas/create_delete/service/dynamodb.py:214-235 | a put of the whole item iff the client's id is missing or empty; otherwise an update keyed by the item's id and name |
| `Dynamo.UpdateCoversAllButKeys` | archive/lambdas/create_delete/service/dynamodb.py:173-224 | an update writes every attribute of the item except the two keys |
| `Store.Upsert` | airflow/dags/utils/task_functions.py:565-603 | a known id keeps its row number and gets the new columns; a new one gets the next number; other rows and tables are untouched |
| `Store.UpsertKeepsId` | airflow/dags/utils/task_functions.py:581-603 | upserting a place again returns the row number it got the first time, whatever the new columns and sequence value |
| `Store.AddHours` | airflow/dags/utils/task_functions.py:663-673 | the hours rows are appended, stamped with the restaurant, after the existing ones; nothing else changes |
| `Store.AirflowHoursRows` | airflow/dags/utils/task_functions.py:652-661 | no opening hours give no rows; otherwise the formatted periods |
| `Store.InsertTag` | airflow/dags/utils/task_functions.py:691-697 | a tag insert adds the pair with its flag when absent and leaves existing tags alone |
| `Store.TagAll` | airflow/dags/utils/task_functions.py:702-710 | every non-empty listed type is tagged; new tags are secondary; old tags are kept |
| `Store.AddTags` | airflow/dags/utils/task_functions.py:688-720 | the types and the primary type are tagged, and existing tags are kept; a new type tag is secondary, and a new primary tag not among the types is primary |
| `Store.TagAllIdempotent` | airflow/dags/utils/task_functions.py:697-710 | tagging the same types twice is tagging them once |
| `Store.AddTagsIdempotent` | airflow/dags/utils/task_functions.py:688-720 | storing the same types twice is storing them once |
| `Store.ListedPrimaryStaysSecondary` | airflow/dags/utils/task_functions.py:697-720 | a primary type also in the type list stays a secondary tag |
| `Store.PrimaryTypesAccumulate` | airflow/dags/utils/task_functions.py:714-720 | two runs with different primary types leave both tagged primary |
| `Store.TierLimit` | airflow/dags/utils/task_functions.py:59-63 | a limit exists exactly for the three tiers, 10000, 5000 and 1000 |
| `Store.CountOne` | airflow/dags/utils/task_functions.py:76-101 | an existing counter goes up by one; a new valid tier starts at one with its limit; an unknown tier changes nothing |
| `Store.CountAll` | airflow/dags/utils/task_functions.py:69-101 | no counter disappears; new counters are for this month and known tiers |
| `Store.CountAllDistinct` | airflow/dags/utils/task_functions.py:69-101 | with distinct tiers, each listed tier is counted once and every other counter is unchanged |
| `Store.AddQuotaCounter` | airflow/dags/utils/task_functions.py:55-103 | no counter disappears; with the default tiers each of the three is counted once this month and every other counter is unchanged |
| `Store.NewMonthDefaultRows` | airflow/dags/utils/task_functions.py:55-101 | the first count of a month creates the three tier rows at one use each |
| `Store.StoredNames` | airflow/dags/utils/task_functions.py:744-748 | the stored names are exactly the non-null names of the restaurant rows |
| `Store.RestaurantsToInsert` | airflow/dags/utils/task_functions.py:722-757 | an empty list raises (the `VALUES` list is empty); otherwise a name is returned iff it is listed and not stored |
| `Store.NotStoredKeepsRepeats` | airflow/dags/utils/task_functions.py:736-752 | a repeated new name comes back as often as it was listed |
| `Store.AirflowColumns` | airflow/dags/utils/task_functions.py:606-630 | the row takes the requested name, the parsed address and every detail field (display name, summary, status, URL, rating, website); vegetarian food is false unless stated; the coordinates are text, "None" when missing; the description is the formatted one, none iff there are no lines |
| `Store.StorePlan` | airflow/dags/utils/task_functions.py:514-541 | the statements either all succeed or raise, and leave no open transaction |
| `Store.ProcessAndStore` | airflow/dags/utils/task_functions.py:486-544 | skips iff there is no id or the details are missing or hold no field at all; raises before writing without address or location; stores iff storable and no statement fails |
| `Store.EarlyFailureWritesNothing` | airflow/dags/utils/task_functions.py:504-541 | a run failing before the quota commit leaves the committed state unchanged |
| `Store.RestaurantDurableWhenHoursFail` | airflow/dags/utils/task_functions.py:103 | the quota update commits the restaurant row: a failure in the hours or tags keeps it, rolling back only hours and tags |
| `Store.RerunDuplicatesHours` | airflow/dags/utils/task_functions.py:639-673 | storing a place twice keeps one restaurant id but lists its hours twice |
| `Migration.MigrationColumns` | migration_dynamo_to_postgres.py:214-236 | the row keeps the exported name, display name, status, summary, URL, coordinates, rating and website and the parsed address; vegetarian food is false unless stated; the description is the lines joined with ", ", none iff they are missing or empty |
| `Migration.RecordStatements` | migration_dynamo_to_postgres.py:171-298 | the exported id ends up keyed to the migration columns with the address parsed by the shorter table, on a row whose id is the one its hours and tags carry (the existing row's id, or the next sequence value for a new one), with the unkeyed rows untouched; a record without an id adds exactly one unkeyed row with the next sequence value and those columns; the record's migrated hours rows are appended, stamped with that id; the types and primary type are tagged as the Airflow task tags them; the quota table is not touched |
| `Migration.MigrateOne` | migration_dynamo_to_postgres.py:165-306 | raises iff a write fails or a primary type meets an unbound statement; a raise rolls back; the statement is bound once a type was inserted |
| `Migration.MigrateFrom` | migration_dynamo_to_postgres.py:165-308 | the batch stops at the first error and runs to the end without one |
| `Migration.StopsAtFirstRaise` | migration_dynamo_to_postgres.py:165-306 | the batch stops at the first record that raises, and the error says whether a write failed or the statement was unbound |
| `Migration.InsertRestaurants` | migration_dynamo_to_postgres.py:160-308 | `insert_restaurants_to_db` as written: it ends without error iff every record is processed; it stops at the first record whose write fails or whose primary type meets the unbound statement |
| `Migration.InsertRestaurantsFixed` | migration_dynamo_to_postgres.py:160-308 | with the statement bound before the loop, the batch stops only at a failing write and otherwise processes every record |
| `Migration.FixedStopsOnlyAtFaults` | migration_dynamo_to_postgres.py:165-306 | with the statement bound, the batch stops only at a failing write and commits every earlier record |
| `Migration.BoundLoopAgrees` | migration_dynamo_to_postgres.py:270-298 | once every primary type is preceded by a typed record, the loop behaves as with the statement bound |
| `Migration.AsWrittenAgreesWhenTypesComeFirst` | migration_dynamo_to_postgres.py:270-298 | the loop as written matches the intended one when every primary type has a typed record at or before it |
| `Migration.PrimaryBeforeAnyTypeRaises` | migration_dynamo_to_postgres.py:290-298 | a first record with a primary type and no types makes the batch raise and commit nothing, where the intended loop commits it |
| `Migration.StopKeepsEarlierRestaurants` | migration_dynamo_to_postgres.py:300-306 | whatever a record's statements write, a batch that stops keeps exactly what the records before the failing one committed |
| `Migration.StopKeepsCommitted` | migration_dynamo_to_postgres.py:300-306 | a migration that stops at record `n` leaves committed exactly what its first `n` records commit |

## Left out

- Network and scanning are not modelled. The Google Maps list scraper (`extract_google_maps_names`), the Places client (`GooglePlacesAPIClient`, `get_google_id`, `get_google_fields`), `extract_dynamodb_list` and the boto3 calls are all left out. Their results are parameters. The writes appear as `Action`, `Write` and `Request` values.
- `delete_from_dynamo` is modelled only as the `ConditionalUpdate` action it issues. That action is an `update_item` on the item's two keys with the condition that both exist; it changes no attribute and removes no item.
- `main`, the Airflow DAG and the migration's `__main__` block are left out, because they are orchestration and file/database connections.
- The clock (`datetime.now()`) is a parameter. The monthly `strftime` text is the `month` parameter.
- Database errors the code cannot foresee are left out. A lost connection or a constraint violation is represented by the `fault` parameter (Airflow) or the `failing` index set (migration). A lambda save that raises is represented by the lambda's `failing` index set. The model does not say which exception it was; it records the text `save_to_dynamo raised`.
- `print` output is not modelled.
- A key present with JSON `null` is not distinguished from a missing key. Both are `None`. For example, the migration's `get("vegetarian_food", False)` would pass a stored null on as NULL, while the model writes false.
- Floating-point numbers are left out. Coordinates and ratings are opaque text, as printed by `str()`.
- Unicode character classes are left out. `\s`, `\d` and `str.split()` use the six ASCII whitespace characters and the ASCII digits. `\b` counts ASCII letters, digits, `_` and the Latin letters U+00C0..U+024F as word characters.
- The row order of `get_restaurants_to_insert` is left out. SQL does not fix it; the model returns the names in list order.
- The migration's display name is left out. The DynamoDB item stores the whole `displayName` object, which the migration would hand to the driver as a map. The model takes it as text.
- Hours rows have no natural key in the schema the code assumes, so they are an append-only list. Deduplication by the database is not modelled.
- `Hours.DynamoFormat`: its contract names only the open items. The closed items are stated through `Hours.MigrationMatchesAirflow` and the contract of `Hours.FormatPeriods`.
- `Text.Trim`: its contract gives the clean ends, the length bound and the fixed point. That the result is the text with only stripped characters cut from its ends is stated by `Text.TrimKeepsMiddle`.
- `Text.ReplaceAll`: its contract gives lengths only. The result itself is pinned down by `Text.ReplaceAllAbsent` (no occurrence) and `Text.ReplaceAllAtFirst` (at the leftmost occurrence).
- `Address.ExtractPostalCode`: the text left after the postal code is stated by `Address.PostalRemainder`. That lemma covers the case where the matched text does not also occur earlier at a place the expression rejects, such as inside a longer digit run.
- `Address.CleanParts`: its contract gives the shape of the kept segments. Which segments are kept, and in what order, is stated by `Address.CleanPartsOne` and `Address.CleanPartsAppend`.
- `Address.NumberDashRest`: when it returns nothing is stated by `Address.NumberDashRestMeaning`.
- `Address.NumberSpaceRest`: when it returns nothing is stated by `Address.NumberSpaceRestMeaning`.
- `Address.TakeNumber`: its contract gives the shapes. When a number is taken, and what is put back, is stated by `Address.TakeNumberWhen` and `Address.TakeNumberRest`.
- `TypicalAddress.ParseTypical`: the end-to-end statement covers addresses of the usual layout only. The street, neighbourhood and city hold no digit and no comma. The house number has at most four digits. The neighbourhood neither starts with a dash nor holds " - ". Other addresses are covered only by the step lemmas.
- `Dynamo.ProcessFields`: both timestamps come from one `now` parameter. The source calls `datetime.now()` once for each, so its two values can differ by the time between the calls. The model also stores the timestamps as text, where the source puts a `datetime` object in the item.
- `Store.StorePlan`: its contract says only whether the run ends stored or raised. What each failure point leaves committed is stated by `Store.EarlyFailureWritesNothing`, `Store.RestaurantDurableWhenHoursFail` and `Store.RerunDuplicatesHours`.

## Behaviour worth noting

- Opening hours are appended on every run. A second run of the same place lists its hours twice (`Store.RerunDuplicatesHours`).
- `add_quota_counter` commits the connection it is given. This is the same connection `process_and_store` is writing on, so the restaurant row becomes durable before the hours and types are written. A later failure rolls back only those (`Store.RestaurantDurableWhenHoursFail`).
- A restaurant can carry several primary type tags after runs with different primary types (`Store.PrimaryTypesAccumulate`). A primary type that is also listed as a type stays a secondary tag (`Store.ListedPrimaryStaysSecondary`).

## Findings

| source | as written | input that shows it | evidently intended | confidence | as-written member | corrected member |
|---|---|---|---|---|---|---|
| old/lambdas/create_delete/handler.py:38 | the delete loop's log line uses `google_name`, the put loop's variable, which is unbound when nothing was put | stored items A and B, list ["A"]: nothing to put, B to delete, and the log line raises `UnboundLocalError` before B's `delete_from_dynamo` call | log the delisted item's name and call `delete_from_dynamo` for every delisted item | high, not executed | `Reconcile.HandlerAsWrittenSkipsDeletes` | `Reconcile.Handler` |
| migration_dynamo_to_postgres.py:298 | the primary-type insert reuses `restaurant_type_insert`, which is bound only inside the types loop at :279 | a first record with a primary type and no non-empty types: `UnboundLocalError` (a `NameError`), rollback, and the batch ends with nothing committed | bind the statement before the loop, as the Airflow task does, so every record is inserted | high, not executed | `Migration.PrimaryBeforeAnyTypeRaises` | `Migration.InsertRestaurantsFixed` |
