# Classify server route handlers, modelled in Dafny

Classify's server answers two read-only queries over a GeoJSON file of HOLC
redlining features:

- `/redlining?minLon=…&maxLon=…&minLat=…&maxLat=…` (`RedliningHandler`) keeps
  the features of type `MultiPolygon` that have a point inside the closed box
  `[minLon, maxLon] × [minLat, maxLat]`, and returns them under `redlinedData`.
- `/searchDescriptions?keyword=…` (`SearchDescriptionsHandler`) keeps the
  features whose `properties.area_description_data` object has a non-null
  value that contains the keyword, ignoring case, and returns them under
  `keywordData`.

Both handlers read the data file, walk its `features` list once and append the
features they keep to a result list. They answer 400 for a missing parameter
and 500 for any exception.

The project has four modules, one per file:

- `GeoJson` (`geojson.dfy`): the feature record as the handlers see it after
  JSON parsing, the data file (`DataFile`), the feature list read from it
  (`ReadFeatures`), and the response `(status, key, payload)`.
- `Subsequences` (`subsequences.dfy`): `PicksAt(r, s, idx)`. It says that `r`
  is `s` read at strictly increasing positions `idx`. So `r` keeps input order
  and takes each input position at most once.
- `Redlining` (`redlining.dfy`): the redlining route. `FilterByBox` is the
  handler's loop: four nested loops with their `break`s. It is proved equal
  to the specification function `Redline`. `Handle` is the whole `handle`
  method and is proved equal to `Respond`.
- `SearchDescriptions` (`search_descriptions.dfy`): the keyword route, built
  the same way (`FilterByKeyword` / `Search`, `Handle` / `Respond`).

The redlining loop has a quirk, which the model reproduces. After a matching
point the code breaks out of the ring and polygon loops when the result list
is non-empty (`RedliningHandler.java:98` and `:100`). It does not test whether
the current feature matched. So once any feature has been kept, each later
feature is tested only on the first ring of its first polygon. `Selected(f,
box, matchedBefore)` says which case applies. `RedlineSelects` gives the exact
per-position rule. The corrected filter is under "## Findings".

Three behaviours of the code are worth stating:

- an inverted box (`minLon > maxLon` or `minLat > maxLat`) is not normalised
  and gives an empty result;
- a bound that is not a number makes `Double.parseDouble` throw, which gives
  status 500, not 400;
- only a null keyword is rejected; the empty keyword is searched, and it
  matches every feature that has a non-null description value.

Coordinates are `real`. The handlers only compare coordinates (`>=`, `<=`) and
never compute with them, so this loses nothing except IEEE-754 detail.

## Model

| member | source | states |
|---|---|---|
| `GeoJson.ReadFeatures` | server/src/main/java/edu/brown/cs/student/main/server/handlers/RedliningHandler.java:127-147 | reading fails only for an unreadable file or a malformed `features` member; a null document or one without `features` gives the empty list; a `features` list is returned exactly as in the file |
| `Redlining.Respond` | server/src/main/java/edu/brown/cs/student/main/server/handlers/RedliningHandler.java:27-118 | status is 400 iff some bound is missing, and then the body is only the "Missing one or more required parameters" error; status is 500 iff all bounds are present but one does not parse or the file cannot be loaded, with an `error` entry; otherwise status is 200 and `redlinedData` holds the filter result for the box exactly as given |
| `Redlining.Handle` | server/src/main/java/edu/brown/cs/student/main/server/handlers/RedliningHandler.java:27-118 | the handler's steps in source order (null check, four parses, file read, filter) give exactly `Respond`'s response |
| `Redlining.FilterByBox` | server/src/main/java/edu/brown/cs/student/main/server/handlers/RedliningHandler.java:68-104 | the nested polygon/ring/point loops, with the point-loop `break` after `add` and the two `break`s on a non-empty result list, compute exactly `Redline` |
| `Redlining.RedlineSelects` | server/src/main/java/edu/brown/cs/student/main/server/handlers/RedliningHandler.java:69-104 | the result is the input at strictly increasing positions (input order, each feature at most once); up to and including the first feature with a point in the box, a feature is kept iff it is a multipolygon with a point in the box; after it, iff it is a multipolygon whose first ring of its first polygon has such a point; the result is non-empty iff such a first feature exists |
| `Redlining.RedlineKeepsOnlyAdmitted` | server/src/main/java/edu/brown/cs/student/main/server/handlers/RedliningHandler.java:74-93 | every kept feature has a non-null geometry of type exactly "MultiPolygon", non-null coordinates, and a point of at least two components whose longitude and latitude lie in the closed box |
| `Redlining.RedlineNonEmptyIffSomeAdmitted` | server/src/main/java/edu/brown/cs/student/main/server/handlers/RedliningHandler.java:80-100 | the result is non-empty iff some input feature is a multipolygon with a point in the box, since the first such feature is always tested on all its rings |
| `Redlining.EmptyBoxKeepsNothing` | server/src/main/java/edu/brown/cs/student/main/server/handlers/RedliningHandler.java:89-92 | if `minLon > maxLon` or `minLat > maxLat` the result is empty; the bounds are never swapped |
| `Redlining.NoFeaturesKeyGivesEmptyResult` | server/src/main/java/edu/brown/cs/student/main/server/handlers/RedliningHandler.java:141-146 | with four parsable bounds and a data file without `features`, the response is 200 with an empty `redlinedData` |
| `Redlining.QuirkDropsLaterFeature` | server/src/main/java/edu/brown/cs/student/main/server/handlers/RedliningHandler.java:98-100 | a feature whose only point in the box is in its second polygon is kept when it comes first, but dropped after an earlier feature was kept; the per-feature filter keeps both |
| `Redlining.IntendedSelects` | server/src/main/java/edu/brown/cs/student/main/server/handlers/RedliningHandler.java:93-94 | the corrected filter keeps, in input order and once each, exactly the multipolygon features with some point in the box |
| `Redlining.AgreesWhenHitsAreInFirstRing` | server/src/main/java/edu/brown/cs/student/main/server/handlers/RedliningHandler.java:80-100 | when every feature with a point in the box has one in the first ring of its first polygon, the loop as written and the corrected filter give the same result |
| `SearchDescriptions.Respond` | server/src/main/java/edu/brown/cs/student/main/server/handlers/SearchDescriptionsHandler.java:34-79 | status is 400 iff the keyword is null, with body `"Missing keyword."`; 500 iff the keyword is present and the data file cannot be loaded, with an `error` entry; otherwise 200 with `keywordData` holding the search for the lower-cased keyword |
| `SearchDescriptions.Handle` | server/src/main/java/edu/brown/cs/student/main/server/handlers/SearchDescriptionsHandler.java:34-79 | the handler's steps (null check, lower-casing, file read, filter) give exactly `Respond`'s response |
| `SearchDescriptions.FilterByKeyword` | server/src/main/java/edu/brown/cs/student/main/server/handlers/SearchDescriptionsHandler.java:48-68 | the loop over features, with the inner loop over description values that breaks on the first match, computes exactly `Search` |
| `SearchDescriptions.SearchSelects` | server/src/main/java/edu/brown/cs/student/main/server/handlers/SearchDescriptionsHandler.java:49-68 | the result is the input at strictly increasing positions (input order, each feature at most once), and a position is taken iff its feature has non-null properties, non-null `area_description_data`, and a non-null value whose lower-cased form contains the keyword |
| `SearchDescriptions.SearchMembership` | server/src/main/java/edu/brown/cs/student/main/server/handlers/SearchDescriptionsHandler.java:52-66 | a feature is in the result iff it is in the input and matches |
| `SearchDescriptions.CaseInsensitive` | server/src/main/java/edu/brown/cs/student/main/server/handlers/SearchDescriptionsHandler.java:46-60 | keywords with the same lower-cased form give the same response; in particular `k` and its lower-cased form do |
| `SearchDescriptions.EmptyKeywordMatchesDescribed` | server/src/main/java/edu/brown/cs/student/main/server/handlers/SearchDescriptionsHandler.java:58-60 | the empty keyword matches a feature iff it has properties, `area_description_data`, and at least one non-null value |
| `SearchDescriptions.NoMatchGivesEmptyResult` | server/src/main/java/edu/brown/cs/student/main/server/handlers/SearchDescriptionsHandler.java:70-71 | a keyword that matches no feature gives status 200 and an empty `keywordData`, not an error |
| `SearchDescriptions.NoFeaturesKeyGivesEmptyResult` | server/src/main/java/edu/brown/cs/student/main/server/handlers/SearchDescriptionsHandler.java:116-121 | a data file without `features` gives status 200 and an empty `keywordData` for every keyword |

## Findings

| source | as written | input that shows it | evidently intended | confidence | as-written member | corrected member |
|---|---|---|---|---|---|---|
| server/src/main/java/edu/brown/cs/student/main/server/handlers/RedliningHandler.java:98-100 | `if (!matchingData.isEmpty()) break;` tests the whole result list, so after the first kept feature each later feature is tested only on the first ring of its first polygon | box [0,1]×[0,1]; feature A = one polygon with point (0.5, 0.5); feature B = polygons [[(5,5)]] and [[(0.5,0.5)]]; input [A, B] returns only [A], although [B] alone returns [B] | stop scanning a feature once that feature matched, as the comment at line 94 says, so that every feature with a point in the box is kept | high (proved on the model, not executed) | `Redlining.QuirkDropsLaterFeature` | `Redlining.IntendedSelects` |

`Redlining.Handle` and `Redlining.FilterByBox` model the code as written,
because that is what the server answers. `Redlining.IntendedRedline` is the
corrected filter. `Redlining.AgreesWhenHitsAreInFirstRing` gives the case
where the two agree.

## Left out

- JSON parsing and serialisation (Moshi), reading the file (`Files.readAllBytes`), and Spark's `Request`/`Response` objects are foreign library and I/O calls. The model takes the parsed data file as a `DataFile` value and returns the response as a value. A read or parse failure is `DataFile.Unreadable` with the exception's message.
- `Double.parseDouble` is a library call. A bound is given as already parsed (`Param.Number`) or as failing with a message (`Param.Unparsable`). NaN, infinities and other IEEE-754 behaviour are not modelled.
- The `System.out.println` logging of the bounds (RedliningHandler.java:55-63) is output only and is left out.
- `String.toLowerCase` and `Object.toString` are library calls. Description values are modelled as their string forms, and `Lower` lower-cases ASCII letters only, with no locale or Unicode case mapping.
- Exceptions from data of the wrong shape inside a feature are left out, because the model's types cannot hold such data. In the source they give status 500 only on the route that reads the member, and only when the loop reaches it. `/redlining` throws for a `geometry` that is not an object, or for wrongly nested or null coordinates that the loop visits. It never reads `properties`. It reads nothing of a feature after that feature's first point in the box. Once the result list is non-empty, it reads a later feature only up to the end of its first ring. `/searchDescriptions` throws for a `properties` or `area_description_data` that is not an object. It never reads `geometry`. A `features` member that is null or not a list is modelled (`FeaturesMember.Malformed`) and gives 500 on both routes.
- The text of a JVM exception message is a parameter of the model, not computed.
- Response content type (`application/json`) is set on every path and is not modelled.
- The client code (`App.tsx`, `WelcomePage.tsx`, `FileUpload.tsx`) and the browser end-to-end tests are user interface only. The pin storage those tests exercise is not part of this model.
