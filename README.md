# Sakila persistence core, modelled in Dafny

This project models the hand-written logic of the Sakila persistence layer, an
object-relational mapping over the Sakila DVD-rental schema. It proves
properties of that model. The modelled parts are:

- **Film** (`film.dfy`, module `FilmEntity`). The `Rating` enum and its column
  values (`"PG-13"`, `"NC-17"`). The rating converter. The `SpecialFeature` enum.
  The converter between a feature set and its comma-joined column value. The
  release-year accessors that go through `TemporalAccessor`. The getters and
  setters of the converted attributes.
- **Staff** (`staff.dfy`, module `StaffEntity`). `signIn`: a legacy SHA-1 hash is
  upgraded to SHA-2 once. `changePassword`. Both work on the `password` column.
- **Store** (`store.dfy`, module `StoreEntity`). `ofStoreId`. `onPostConstruct`.
  The setters `setAddress` and `setManagerStaff`. Each setter keeps its scalar
  foreign-key column equal to the associated entity's id. `setManagerStaff` also
  points the new manager back at the store.
- **The generic entity service** (`entity_service.dfy`, module
  `BaseEntityService`). Keyset-paginated reads `findAll` and `findAllBy`:
  `WHERE id > bound [AND attribute = value] ORDER BY id ASC`, limited to
  `maxResults`. The point lookup `findById`. The writes `persist` and `merge`.
  A table of the store is a map from id to entity.
- **Locale lookups** (`locale_utils.dfy`, module `LocaleUtils`).
  `valuesOfDisplayCountry`, `valuesOfDisplayLanguage` and their `InEnglish`
  variants. Each one filters the available locales by display name and memoises
  the result in a two-level cache. The cache is updated in place.
- `java.dfy` (module `JavaLang`) holds the platform behaviour the code relies
  on. A null reference is `Option`. A thrown exception is `Result.Throws` with
  its kind. It also models `String.isBlank`, `Collectors.joining`, and
  `String.split` with a one-character separator, including the JDK's rule that
  trailing empty strings are dropped.

Properties proved include:

- The rating converter round-trips. The features converter round-trips null and
  every non-empty set; the empty set does not come back.
- Re-encoding a decoded feature column is canonical: the distinct features, in
  declaration order.
- The empty feature set and a lone comma behave as the code makes them behave.
- Keyset pagination covers every row: re-querying with the last id of each page
  visits every row above the first bound exactly once, in ascending order.
- Each cache only ever holds the filter result for its keys, and an existing
  cache entry is never modified.
- The exception kinds and the order of the argument checks are modelled
  exactly.

## Model

| member | source | states |
|---|---|---|
| JavaLang.Segments | src/main/java/com/github/jinahya/persistence/Film.java:267 | the pieces between separators, empty ones included, contain no separator and join back to the input |
| JavaLang.Split | src/main/java/com/github/jinahya/persistence/Film.java:267 | `split(",")` returns the input itself when it holds no comma, and separator-free tokens otherwise |
| JavaLang.IsBlank | sakila-jakarta-persistence/src/main/java/com/github/jinahya/persistence/sakila/util/LocaleUtils2.java:31 | `String.isBlank`: the empty string is blank; otherwise blank means every character is `Character.isWhitespace` |
| JavaLang.Join | src/main/java/com/github/jinahya/persistence/Film.java:259 | `Collectors.joining`: no parts give "", and a join always begins with its first part; `SegmentsOfJoin` and `SplitOfJoin` are its inverse |
| JavaLang.DropTrailingEmpty | src/main/java/com/github/jinahya/persistence/Film.java:267 | the result is a prefix, its last token is non-empty, and everything dropped was empty |
| JavaLang.SegmentsOfJoin | src/main/java/com/github/jinahya/persistence/Film.java:253-270 | splitting a join of separator-free parts into all its segments gives the parts back |
| JavaLang.SplitOfJoin | src/main/java/com/github/jinahya/persistence/Film.java:253-270 | `split` inverts `joining` when there is at least one part and every part is non-empty and separator-free |
| FilmEntity.ValueOfColumnValue | src/main/java/com/github/jinahya/persistence/Film.java:161-169 | null throws NullPointerException; a result is the first constant in declaration order with that column value; otherwise IllegalArgumentException, and no constant has that column value |
| FilmEntity.LookupOfColumnValue | src/main/java/com/github/jinahya/persistence/Film.java:161-169 | when column values are distinct, looking up a constant's own column value returns that constant |
| FilmEntity.RatingColumnValues | src/main/java/com/github/jinahya/persistence/Film.java:134-181 | G, PG and R store their names; PG_13 stores "PG-13" and NC_17 stores "NC-17"; a constant without a declared value stores its name |
| FilmEntity.RatingColumnValue | src/main/java/com/github/jinahya/persistence/Film.java:179-181 | `columnValue()` is never empty: the declared value when the constant was given one, otherwise the constant's name |
| FilmEntity.RatingOfColumnValue | src/main/java/com/github/jinahya/persistence/Film.java:161-169 | succeeds only on the result's own column value; null throws NullPointerException and anything else unmatched throws IllegalArgumentException |
| FilmEntity.RatingsDistinct | src/main/java/com/github/jinahya/persistence/Film.java:138-158 | the five ratings have pairwise different column values |
| FilmEntity.RatingRoundTrip | src/main/java/com/github/jinahya/persistence/Film.java:161-181 | `valueOfColumnValue(r.columnValue()) == r` for every rating |
| FilmEntity.RatingNameIsNotColumnValue | src/main/java/com/github/jinahya/persistence/Film.java:161-169 | the constant names "PG_13" and "NC_17" are refused with IllegalArgumentException |
| FilmEntity.RatingToDatabaseColumn | src/main/java/com/github/jinahya/persistence/Film.java:191-196 | null exactly for null, otherwise a column value that reads back as the same rating |
| FilmEntity.RatingToEntityAttribute | src/main/java/com/github/jinahya/persistence/Film.java:199-204 | null reads as null and only null does; a non-null column throws exactly when `valueOfColumnValue` does, always IllegalArgumentException; a rating is returned only for the column value written for it |
| FilmEntity.RatingConverterRoundTrip | src/main/java/com/github/jinahya/persistence/Film.java:186-205 | reading back what the converter writes gives the attribute, null included |
| FilmEntity.FeatureColumnValuesWellFormed | src/main/java/com/github/jinahya/persistence/Film.java:219-225 | the four column values are non-empty, comma-free and pairwise different |
| FilmEntity.FeatureColumnValue | src/main/java/com/github/jinahya/persistence/Film.java:241-243 | `columnValue()` is never empty and never holds the comma the converter joins with |
| FilmEntity.FeatureOfColumnValue | src/main/java/com/github/jinahya/persistence/Film.java:227-235 | succeeds only on the result's column value; null throws NullPointerException, no match throws IllegalArgumentException |
| FilmEntity.FeatureRoundTrip | src/main/java/com/github/jinahya/persistence/Film.java:227-243 | every feature is found from its own column value |
| FilmEntity.InDeclarationOrder | src/main/java/com/github/jinahya/persistence/Film.java:256-259 | an EnumSet is iterated over exactly its members, each once, in increasing ordinal |
| FilmEntity.KeepAscending | src/main/java/com/github/jinahya/persistence/Film.java:256-259 | keeping some features of a sequence in declaration order leaves them in declaration order |
| FilmEntity.OrdinalAscendingUnique | src/main/java/com/github/jinahya/persistence/Film.java:256-259 | only one sequence lists a given set of features each once in increasing ordinal, so the EnumSet order is determined by the set |
| FilmEntity.EncodeInOrder | src/main/java/com/github/jinahya/persistence/Film.java:257-259 | the joined column values of features in iteration order; empty exactly when there are no features |
| FilmEntity.SplitOfEncoding | src/main/java/com/github/jinahya/persistence/Film.java:253-270 | splitting a non-empty encoding at commas gives back the column values, one per feature, in order |
| FilmEntity.FeaturesToDatabaseColumn | src/main/java/com/github/jinahya/persistence/Film.java:253-260 | null exactly for null; the empty set is written as "" |
| FilmEntity.FeaturesOfTokens | src/main/java/com/github/jinahya/persistence/Film.java:266-269 | succeeds exactly when every token is a column value; the set holds exactly the features whose column value is a token; failures are IllegalArgumentException |
| FilmEntity.FeaturesToEntityAttribute | src/main/java/com/github/jinahya/persistence/Film.java:263-270 | null reads as null; a non-null column throws exactly when some split token is not a column value, always IllegalArgumentException; otherwise the set holds exactly the features named by the split tokens |
| FilmEntity.FeaturesRoundTripInOrder | src/main/java/com/github/jinahya/persistence/Film.java:248-271 | for any non-empty iteration order, repeats allowed, decoding the encoding gives the set of its elements |
| FilmEntity.FeaturesRoundTrip | src/main/java/com/github/jinahya/persistence/Film.java:248-271 | every non-empty feature set survives a write and a read |
| FilmEntity.FeaturesNullRoundTrip | src/main/java/com/github/jinahya/persistence/Film.java:253-267 | a null attribute is written as null and a null column reads as null |
| FilmEntity.EmptyFeaturesDoNotRoundTrip | src/main/java/com/github/jinahya/persistence/Film.java:253-270 | the empty set is written as "", which splits into [""] and reads back as IllegalArgumentException |
| FilmEntity.LoneCommaIsEmptySet | src/main/java/com/github/jinahya/persistence/Film.java:263-270 | "," splits into no tokens and reads as the empty set |
| FilmEntity.RepeatedFeaturesEncoding | src/main/java/com/github/jinahya/persistence/Film.java:253-260 | Commentaries, Trailers, Trailers is written as "Commentaries,Trailers,Trailers" |
| FilmEntity.DecodeDeduplicates | src/main/java/com/github/jinahya/persistence/Film.java:263-270 | that value reads as the two-element set {COMMENTARIES, TRAILERS} |
| FilmEntity.EncodeInDeclarationOrder | src/main/java/com/github/jinahya/persistence/Film.java:253-260 | {COMMENTARIES, TRAILERS} is written as "Trailers,Commentaries", in declaration order |
| FilmEntity.ReencodeIsCanonical | src/main/java/com/github/jinahya/persistence/Film.java:248-271 | writing back a decoded value gives the encoding of the one sequence that lists each named feature once, in increasing ordinal, whatever order and repeats the column held |
| FilmEntity.Film.constructor | src/main/java/com/github/jinahya/persistence/Film.java:276-278 | a new film has no release year, rating or special features |
| FilmEntity.Film.GetReleaseYearAsTemporalAccessor | src/main/java/com/github/jinahya/persistence/Film.java:531-536 | a null mapper throws NullPointerException; a null year gives null; otherwise whatever the mapper returns for the year, null included |
| FilmEntity.Film.SetReleaseYearAsTemporalAccessor | src/main/java/com/github/jinahya/persistence/Film.java:546-552 | null clears the year; otherwise the accessor's YEAR field is stored; an accessor without YEAR throws UnsupportedTemporalTypeException and leaves the year unchanged |
| FilmEntity.Film.GetRating | src/main/java/com/github/jinahya/persistence/Film.java:395-397 | returns the rating attribute |
| FilmEntity.Film.SetRating | src/main/java/com/github/jinahya/persistence/Film.java:399-401 | replaces the rating attribute and nothing else |
| FilmEntity.Film.GetSpecialFeatures | src/main/java/com/github/jinahya/persistence/Film.java:403-405 | returns the special-features attribute |
| FilmEntity.Film.SetSpecialFeatures | src/main/java/com/github/jinahya/persistence/Film.java:407-409 | replaces the special-features attribute and nothing else |
| FilmEntity.ReleaseYearRoundTrip | src/main/java/com/github/jinahya/persistence/Film.java:531-552 | setting the year from an accessor and reading it through a mapper gives what the mapper returns for that year |
| StaffEntity.Staff.SignIn | src/main/java/com/github/jinahya/persistence/Staff.java:276-294 | a null password succeeds exactly when no hash is stored; a password succeeds exactly when its SHA-1 or SHA-2 digest is the stored hash; a SHA-1 match (tried first) replaces the hash with the SHA-2 one; any failure is IllegalStateException and changes nothing |
| StaffEntity.Accepts | src/main/java/com/github/jinahya/persistence/Staff.java:277-293 | the sign-in rule: with no stored hash only a null password is accepted, and an accepted password implies a stored hash |
| StaffEntity.Staff.ChangePassword | src/main/java/com/github/jinahya/persistence/Staff.java:302-308 | a null new password throws NullPointerException and an empty one IllegalArgumentException, both before the old one is checked; it then succeeds exactly when the old password signs in, and stores the SHA-2 digest of the new one |
| StaffEntity.SignInTwice | src/main/java/com/github/jinahya/persistence/Staff.java:276-294 | once a sign-in succeeds, the same password signs in again and the stored hash is its SHA-2 digest; once it fails, it fails again and changes nothing |
| StaffEntity.ChangeThenSignIn | src/main/java/com/github/jinahya/persistence/Staff.java:302-308 | after a successful change the new password signs in and the old one is refused, provided their digests differ |
| StoreEntity.Store.constructor | src/main/java/com/github/jinahya/persistence/sakila/Store.java:79-81 | every attribute is unset; foreign keys are in sync |
| StoreEntity.Store.OfStoreId | src/main/java/com/github/jinahya/persistence/sakila/Store.java:70-74 | a fresh store with the given id and nothing else set |
| StoreEntity.Store.OnPostConstruct | src/main/java/com/github/jinahya/persistence/sakila/Store.java:118-123 | the manager, if any, points back at this store afterwards |
| StoreEntity.Store.SetAddress | src/main/java/com/github/jinahya/persistence/sakila/Store.java:246-253 | sets the address and `addressId == address?.addressId`; store id and manager fields are unchanged; keeps the foreign keys in sync |
| StoreEntity.Store.SetManagerStaff | src/main/java/com/github/jinahya/persistence/sakila/Store.java:211-225 | sets the manager, `managerStaffId == managerStaff?.staffId`, and the manager's back-reference; store id, address fields and a replaced manager's store are unchanged |
| StoreEntity.NewStore | src/main/java/com/github/jinahya/persistence/sakila/Store.java:211-253 | `ofStoreId`, then both setters, leave every foreign key in sync and the manager pointing back |
| BaseEntityService.Ascending | sakila-jakarta-persistence/src/main/java/com/github/jinahya/persistence/sakila/service/__BaseEntityService.java:118 | ORDER BY id ASC: a strictly ascending sequence holding exactly the selected ids |
| BaseEntityService.AscendingUnique | sakila-jakarta-persistence/src/main/java/com/github/jinahya/persistence/sakila/service/__BaseEntityService.java:118 | that order is unique: two strictly ascending sequences with the same elements are equal |
| BaseEntityService.KeysAbove | sakila-jakarta-persistence/src/main/java/com/github/jinahya/persistence/sakila/service/__BaseEntityService.java:117 | WHERE id > bound selects exactly the table's ids above the bound |
| BaseEntityService.MatchingKeysAbove | sakila-jakarta-persistence/src/main/java/com/github/jinahya/persistence/sakila/service/__BaseEntityService.java:141-144 | the conjunction selects exactly the ids above the bound whose attribute equals the value |
| BaseEntityService.FrontOfAscending | sakila-jakarta-persistence/src/main/java/com/github/jinahya/persistence/sakila/service/__BaseEntityService.java:118-121 | the first maxResults of the ascending order are ascending and skip no selected id up to the last one returned |
| BaseEntityService.PageOf | sakila-jakarta-persistence/src/main/java/com/github/jinahya/persistence/sakila/service/__BaseEntityService.java:117-122 | at most maxResults rows of the selected ids, each row the table's own, strictly ascending, none skipped |
| BaseEntityService.FindAll | sakila-jakarta-persistence/src/main/java/com/github/jinahya/persistence/sakila/service/__BaseEntityService.java:105-123 | a null mapper or bound throws NullPointerException; otherwise at most maxResults stored rows with id > bound, strictly ascending, and no id above the bound is skipped up to the last one returned (all of them when the page is not full) |
| BaseEntityService.FindAllBy | sakila-jakarta-persistence/src/main/java/com/github/jinahya/persistence/sakila/service/__BaseEntityService.java:125-150 | as findAll, and additionally a null attribute mapper throws NullPointerException; every row's attribute equals the value, and no matching row is skipped |
| BaseEntityService.FindById | sakila-jakarta-persistence/src/main/java/com/github/jinahya/persistence/sakila/service/__BaseEntityService.java:87-94 | a null id throws NullPointerException; otherwise the row with that id when present, and empty exactly when absent |
| BaseEntityService.FilterIds | sakila-jakarta-persistence/src/main/java/com/github/jinahya/persistence/sakila/service/__BaseEntityService.java:141-145 | filtering keeps exactly the ids whose row matches, and keeps an ascending order ascending |
| BaseEntityService.FindAllByIsFilteredOrder | sakila-jakarta-persistence/src/main/java/com/github/jinahya/persistence/sakila/service/__BaseEntityService.java:141-148 | findAllBy is the first maxResults rows of the filtered ascending order of findAll's rows |
| BaseEntityService.KeysetCoverage | sakila-jakarta-persistence/src/main/java/com/github/jinahya/persistence/sakila/service/__BaseEntityService.java:105-123 | paging with each page's last id as the next bound returns, concatenated, every row above the first bound once and in ascending order |
| BaseEntityService.FindAllFirstPageExample | sakila-jakarta-persistence/src/main/java/com/github/jinahya/persistence/sakila/service/__BaseEntityService.java:105-123 | over ids 10, 20, 30 and 40, the page above 15 with at most 2 rows is 20, 30 |
| BaseEntityService.FindAllNextPageExample | sakila-jakarta-persistence/src/main/java/com/github/jinahya/persistence/sakila/service/__BaseEntityService.java:105-123 | the page above 30 is 40 alone |
| BaseEntityService.FindAllByExample | sakila-jakarta-persistence/src/main/java/com/github/jinahya/persistence/sakila/service/__BaseEntityService.java:125-150 | over rows 1 to 5 with attributes A, B, A, B, A, the rows with A are 1, 3 and 5, in that order |
| BaseEntityService.EntityService.Persist | sakila-jakarta-persistence/src/main/java/com/github/jinahya/persistence/sakila/service/__BaseEntityService.java:58-65 | null throws NullPointerException; an id already present throws EntityExistsException; in both cases nothing is written; otherwise the row is inserted and the same entity is returned |
| BaseEntityService.EntityService.Merge | sakila-jakarta-persistence/src/main/java/com/github/jinahya/persistence/sakila/service/__BaseEntityService.java:75-78 | null throws NullPointerException and writes nothing; otherwise inserts or replaces the row with the entity's id and returns the stored row |
| BaseEntityService.EntityService.FindByIdNow | sakila-jakarta-persistence/src/main/java/com/github/jinahya/persistence/sakila/service/__BaseEntityService.java:87-94 | reads the current table as findById specifies |
| BaseEntityService.PersistThenFind | sakila-jakarta-persistence/src/main/java/com/github/jinahya/persistence/sakila/service/__BaseEntityService.java:58-94 | after a successful persist, findById returns the persisted entity; after a refused one, it returns what it did before |
| LocaleUtils.Filter | sakila-jakarta-persistence/src/main/java/com/github/jinahya/persistence/sakila/util/LocaleUtils2.java:40-42 | `filter(...).toList()` is no longer than its input and keeps only elements that pass the test |
| LocaleUtils.FilterMembers | sakila-jakarta-persistence/src/main/java/com/github/jinahya/persistence/sakila/util/LocaleUtils2.java:40-42 | the filter keeps exactly the passing members, each as often as it occurs in the input |
| LocaleUtils.FilterAppend | sakila-jakarta-persistence/src/main/java/com/github/jinahya/persistence/sakila/util/LocaleUtils2.java:40-42 | the filter keeps order: filtering a concatenation concatenates the filtered parts |
| LocaleUtils.FilterIdempotent | sakila-jakarta-persistence/src/main/java/com/github/jinahya/persistence/sakila/util/LocaleUtils2.java:40-42 | filtering a filtered list again changes nothing |
| LocaleUtils.CountryValues | sakila-jakarta-persistence/src/main/java/com/github/jinahya/persistence/sakila/util/LocaleUtils2.java:40-42 | every result's display country in inLocale is the name, and exactly the available locales with that display country are returned |
| LocaleUtils.LanguageValues | sakila-jakarta-persistence/src/main/java/com/github/jinahya/persistence/sakila/util/LocaleUtils2.java:72-80 | every result's display language is the name; exactly the available locales with a non-blank display language equal to the name are returned |
| LocaleUtils.CountryOfEveryLocale | sakila-jakarta-persistence/src/main/java/com/github/jinahya/persistence/sakila/util/LocaleUtils2.java:40-42 | every available locale is among the results for its own display country |
| LocaleUtils.LanguageBlankExclusion | sakila-jakarta-persistence/src/main/java/com/github/jinahya/persistence/sakila/util/LocaleUtils2.java:72-80 | for a non-blank name, the blank exclusion removes nothing: the results are exactly the locales with that display language |
| LocaleUtils.Memoize | sakila-jakarta-persistence/src/main/java/com/github/jinahya/persistence/sakila/util/LocaleUtils2.java:36-43 | after the nested computeIfAbsent, the key pair is present; an existing entry leaves the cache as it was; otherwise the new value is stored |
| LocaleUtils.MemoizeKeepsEntries | sakila-jakarta-persistence/src/main/java/com/github/jinahya/persistence/sakila/util/LocaleUtils2.java:36-43 | no existing entry is modified or removed, and no entry but the requested one is added |
| LocaleUtils.MemoizePreserves | sakila-jakarta-persistence/src/main/java/com/github/jinahya/persistence/sakila/util/LocaleUtils2.java:36-43 | storing the filter result keeps every cached list equal to the filter result for its keys |
| LocaleUtils.LocaleUtils2.constructor | sakila-jakarta-persistence/src/main/java/com/github/jinahya/persistence/sakila/util/LocaleUtils2.java:27-28 | both caches start empty |
| LocaleUtils.LocaleUtils2.ValuesOfDisplayCountry | sakila-jakarta-persistence/src/main/java/com/github/jinahya/persistence/sakila/util/LocaleUtils2.java:30-45 | a null name throws NullPointerException, then a blank one IllegalArgumentException, then a null inLocale NullPointerException, all leaving the cache unchanged; otherwise the result is always the matching locales, the cache is memoised, and the cache invariant holds |
| LocaleUtils.LocaleUtils2.ValuesOfDisplayCountryInEnglish | sakila-jakarta-persistence/src/main/java/com/github/jinahya/persistence/sakila/util/LocaleUtils2.java:55-57 | the same lookup rendered in ENGLISH |
| LocaleUtils.LocaleUtils2.ValuesOfDisplayLanguage | sakila-jakarta-persistence/src/main/java/com/github/jinahya/persistence/sakila/util/LocaleUtils2.java:62-83 | as for countries, except that a blank name throws IllegalStateException; the result is always the locales with that non-blank display language |
| LocaleUtils.LocaleUtils2.ValuesOfDisplayLanguageInEnglish | sakila-jakarta-persistence/src/main/java/com/github/jinahya/persistence/sakila/util/LocaleUtils2.java:93-95 | the same lookup rendered in ENGLISH |
| LocaleUtils.AskCountryTwice | sakila-jakarta-persistence/src/main/java/com/github/jinahya/persistence/sakila/util/LocaleUtils2.java:36-43 | asking twice gives the same list; the first answer is the filter result and is then cached |
| LocaleUtils.BlankBeforeNullLocale | sakila-jakarta-persistence/src/main/java/com/github/jinahya/persistence/sakila/util/LocaleUtils2.java:30-66 | a blank name with a null locale is refused for its blankness: IllegalArgumentException for countries, IllegalStateException for languages |

## Left out

- SHA-1 and SHA-2: the digests come from `_PersistenceUtils`, which is not part of this model. They are uninterpreted functions fixed per staff member. Logging is left out too.
- `Staff.getActiveAsBoolean` and `Staff.setActiveAsBoolean` only throw `UnsupportedOperationException`. They are not modelled.
- The `Film` temporal-amount accessors (`getRentalDurationAsTemporalAmount` and the others) are unfinished stubs. They are not modelled. Neither are the `BigDecimal` column defaults built from doubles.
- Jakarta Validation and Persistence annotations are declarative metadata the framework enforces. Among them, `@Positive` on `maxResults` becomes the precondition `maxResults > 0` of `FindAll` and `FindAllBy`. The code never checks it: `requireNonNull` on an `int` checks nothing. So a non-positive value gets the persistence provider's own behaviour, which is not part of this model.
- BaseEntityService.FindAllBy: `attributeValue` has a `@NotNull` annotation but no runtime check. What the provider does with a null value is not part of this model, so the value is always present here.
- Criteria-query construction, `flush`, the entity-manager lifecycle and the transaction wrapper are left out. The wrapper, `applyEntityManagerInTransaction`, is not part of this model. A persist that violates the key is therefore modelled as throwing `EntityExistsException` with nothing written. Provider-specific wrapping of that exception is left out, and so are generated ids.
- BaseEntityService.FindAll: the id path is modelled only for its null check. Ids are integers, and the table is a snapshot. Concurrent writers between pages are left out.
- BaseEntityService.FindAllBy: the attribute mapper is a total function on the entity. A mapper that itself fails or returns null is left out.
- LocaleUtils: the JDK's locale list and display names are parameters: a sequence and two functions. Several things about the caches are left out:
  - `ConcurrentHashMap` thread safety. Each cache is a `ConcurrentHashMap` copied from an empty `WeakHashMap`, so its keys are held strongly and entries are never dropped. The model's map behaves the same way.
  - The `unmodifiableList` wrapper.
- StoreEntity.Staff.SetStore: `com.github.jinahya.persistence.sakila.Staff` is not part of this model. Its `setStore` is modelled as a plain field assignment.
- FilmEntity.FeaturesToDatabaseColumn: sets are encoded in declaration order, which is the iteration order of the `EnumSet` that the converter itself builds. A set of another class, iterated in another order, writes its column values in that order. `FeaturesRoundTripInOrder` covers every such order, but the exact string is not modelled. A set holding a null element throws NullPointerException in `columnValue`; the model has no null features.
- The rest of the repository (`ActorInfo`, `SalesByStoreService`, the entity-manager producer, the randomizers and the integration tests) is not modelled. Those files are data holders, JDBC I/O, dependency-injection plumbing or tests against a live database.
