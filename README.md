# HerculesBase patch lookup, modelled in Dafny

HerculesBase tells an EDOPro client which patches it still needs. The client
sends its version as `EDOPRO-<PLATFORM>-<major>.<minor>.<patch>`. The service
answers with every published patch for that platform whose version is greater,
in ascending order. Each patch is listed as `{name: "major.minor.patch", md5, url}`.
Answers are memoised in a `responses` cache keyed by the exact
(platform, major, minor, patch) tuple. A publisher adds patches to the
append-only `urls` catalog with `POST /version`, and every publish empties the cache.

The model has four modules:

- `Wrappers` (wrappers.dfy): an `Option` type that works with `:-`.
- `Versions` (versions.dfy): platforms, versions, the numeric order on
  (major, minor, patch), decimal numerals, and the parser. The parser is a
  hand-written scanner standing in for the regular expression
  `^EDOPRO-(WINDOWS|MAC|LINUX)-(\d+)\.(\d+)\.(\d+)$`, which the source applies
  with its `i` flag. A `Spelling` datatype describes independently what that
  expression matches. `ParseCharacterization` proves that the scanner accepts
  exactly those strings, and proves what it returns for each.
- `Catalog` (catalog.dfy): patch records and the query that a cache miss runs
  (`SelectNewer`, `QueryNewer`). The query is specified as a sorted permutation
  of a filter. This module also holds the query as the source writes it, which
  compares version strings as text.
- `Service` (service.dfy): the class `PatchService`. Its fields `catalog` and
  `cache` are the two tables. `Lookup` and `Publish` are its methods, and
  `Valid()` is the invariant that both methods preserve: every cached answer
  equals what a fresh catalog query would return for its key.

The parts of the source's environment that the model cannot see become
parameters:

- `storeOk` says whether the cache insert succeeds.
- `appendOk` says whether the catalog insert transaction commits.
- `secret` stands for `HERCULES_BASE_SECRET`.
- `now` stands for `Date.now()`.

In these places the model follows the code:

- The `i` flag covers the whole pattern, so the `EDOPRO-` prefix is matched
  case-insensitively too, not only the platform token.
- The publish route does not validate `os` or the types of the numbers. A
  record keeps the `os` string exactly as sent. A record sent with `linux`
  is therefore never offered to anyone, because lookups compare against the
  upper-case token.
- A failed catalog insert is answered 400.
- A publish body without `patch` is not refused. The default
  `patch = parseInt(minor)` (src/app.js:63) reads `minor`, which is already
  bound, so the record is stored with `patch` equal to `minor`. Only a
  missing `major` or `minor` makes the destructuring throw, which is answered
  400.

The model makes two deliberate corrections to the code, listed under Findings. Its simplifications are listed under Left out.

## Model

| member | source | states |
|---|---|---|
| `Versions.Less` | src/app.js:42 | the numeric "newer than" order on (major, minor, patch); its properties are stated by the four lemmas below |
| `Versions.LessIrreflexive` | src/app.js:42 | no version number is newer than itself |
| `Versions.LessAsymmetric` | src/app.js:42 | two version numbers are never each newer than the other |
| `Versions.LessTransitive` | src/app.js:42 | "newer than" is transitive |
| `Versions.LessConnected` | src/app.js:42 | any two distinct version numbers are ordered one way or the other, so the order is total |
| `Versions.Decimal` | src/app.js:43 | printing a number yields a non-empty run of digits |
| `Versions.Value` | src/app.js:22-24 | `parseInt` of a digit run, read left to right in base ten; `Versions.ValueOfDecimal` states that it inverts printing |
| `Versions.ValueOfDecimal` | src/app.js:22-24 | reading a printed number with `parseInt` gives back the number |
| `Versions.DigitPrefix` | src/app.js:17 | `\d+` takes the longest run of digits: all of it is digits and the next character is not |
| `Versions.DigitPrefixOfRun` | src/app.js:17 | a digit run followed by a non-digit is read exactly to its end |
| `Versions.StripNumberFront` | src/app.js:17 | a numeral followed by a non-digit is consumed whole, with its decimal value |
| `Versions.StripPlatformFront` | src/app.js:17 | a platform token in any case selects its platform, and no other alternative matches |
| `Versions.Parse` | src/app.js:17-29 | the scanner that replaces the pattern match; what it accepts and returns is stated by `Versions.ParseCharacterization`, `Versions.ParseComplete`, `Versions.ParseSound` and `Versions.ParseFormat` |
| `Versions.ParseComplete` | src/app.js:17-25 | every string of the form prefix, platform token, and three digit runs (any letter case) is accepted, with the upper-cased platform and the value of each run |
| `Versions.ParseSound` | src/app.js:17-25 | every accepted string has such a form, and the result is exactly what it spells |
| `Versions.ParseCharacterization` | src/app.js:17-29 | `Parse(s) == Some(v)` holds exactly when `s` is a well-spelled version string meaning `v`; every other string is rejected |
| `Versions.ParseFormat` | src/app.js:20-25 | formatting a version as its canonical version string and parsing it returns the same platform and numbers |
| `Versions.Name` | src/app.js:42-43 | the text `major.minor.patch` that both the SQL concatenation and the lookup parameter print; `Versions.NameRoundTrip` and `Versions.NameInjective` state what it determines |
| `Versions.NameRoundTrip` | src/app.js:42-43 | a listed `"major.minor.patch"` name reads back as the numbers it was printed from |
| `Versions.NameInjective` | src/app.js:42-43 | distinct version numbers get distinct names |
| `Catalog.IsNewer` | src/app.js:42 | a record is selected for a key when its `os` equals the key's upper-case token and its version is above the key's; used by the contract of `Catalog.Newer` |
| `Catalog.Entry` | src/app.js:42 | the `{name, md5, url}` row of a record; `Versions.NameRoundTrip` and `Versions.NameInjective` state what its name determines |
| `Catalog.Newer` | src/app.js:42 | for every record, the filter holds as many copies as the catalog does if the record is newer than the key on the key's platform, and none otherwise |
| `Catalog.Insert` | src/app.js:42 | inserting into an ascending sequence keeps it ascending and adds exactly that record |
| `Catalog.SortByVersion` | src/app.js:42 | the result is ascending by version number and is a permutation of the input |
| `Catalog.SelectNewer` | src/app.js:42-43 | the records a client needs are ascending and are exactly the catalog's newer records of the platform, with multiplicity |
| `Catalog.QueryNewer` | src/app.js:42-44 | the answer computed on a cache miss, with the numeric order; its properties are stated by the `Catalog.QueryNewer…` lemmas below |
| `Catalog.QueryNewerLength` | src/app.js:42-44 | an answer has one entry per newer record |
| `Catalog.QueryNewerListsOnlyNewer` | src/app.js:42-44 | each entry is the `{name, md5, url}` projection of a catalog record for the platform that is newer than the key |
| `Catalog.QueryNewerListsAllNewer` | src/app.js:42-44 | every newer catalog record of the platform is listed |
| `Catalog.QueryNewerMembers` | src/app.js:42-44 | an entry is in the answer exactly when it projects a newer catalog record of the platform |
| `Catalog.QueryNewerSorted` | src/app.js:42-44 | every listed name is a version string, and the names ascend in numeric version order |
| `Catalog.ListedInVersionOrder` | src/app.js:42 | an older record is always listed before a newer one |
| `Catalog.QueryAfterAppendNewer` | src/app.js:69-71 | after a record newer than the key is appended, the answer for the key includes it and has one more entry |
| `Catalog.QueryAfterAppendOther` | src/app.js:69-71 | appending any other record leaves the answer for the key unchanged |
| `Catalog.QueryOfOne` | src/app.js:42-43 | a one-record catalog answers with that record exactly when it is newer than the key |
| `Catalog.NamesOfNineAndTen` | src/app.js:42-43 | versions 1.9.0 and 1.10.0 are listed as "1.9.0" and "1.10.0" |
| `Catalog.SelectTwo` | src/app.js:42 | two newer records of the platform are listed older first, whichever the catalog holds first |
| `Catalog.NumericOrderListsNineBeforeTen` | src/app.js:42 | with numeric order, a two-record catalog holding 1.9.0 and 1.10.0 lists 1.9.0 first, whichever it holds first; the general statement is `Catalog.ListedInVersionOrder` |
| `Catalog.TextLess` | src/app.js:42 | the binary text comparison behind `name > ?` and `ORDER BY name`; `Catalog.TextOrderSkipsMinorTen` shows that it puts "1.10.0" below "1.9.0" |
| `Catalog.QueryAsWritten` | src/app.js:42-43 | the query with the text comparison and text sort as written; `Catalog.TextOrderSkipsMinorTen` shows where it differs from `Catalog.QueryNewer` |
| `Catalog.TextOrderSkipsMinorTen` | src/app.js:42-43 | with the text comparison as written, a client at 1.9.0 is not offered 1.10.0; with numeric order it is |
| `Service.KeyOf` | src/app.js:16-18 | the cache key of a version string: none when it is missing, otherwise what `Versions.Parse` returns |
| `Service.HasNumbers` | src/app.js:57-65 | the destructuring of a publish body succeeds exactly when `major` and `minor` are present |
| `Service.RecordOf` | src/app.js:69-71 | the row a publish inserts, stamped with the publish time; `Service.PatchService.Publish` states when it is appended, and `Service.MissingPatchPublishesMinor` what it holds when `patch` is left out |
| `Service.PatchOf` | src/app.js:63 | the stored `patch` is the body's own, or `minor` when the body leaves it out |
| `Service.PatchService.constructor` | src/app.js:8 | a service over an existing catalog with an empty cache satisfies the cache invariant |
| `Service.PatchService.Lookup` | src/app.js:15-52 | a missing or malformed version string gets 400 and changes nothing; otherwise the answer is always the fresh catalog query for the key; a hit returns the cached value and changes nothing; a miss caches the answer under its key only, if the store succeeds, and returns the same answer if it fails; the catalog is never changed and the invariant is kept |
| `Service.PatchService.Publish` | src/app.js:55-81 | a body missing `major` or `minor` gets 400; a wrong token gets 401; a failed insert gets 400; none of these changes anything; otherwise the catalog becomes the old catalog plus the one record built from the body, the cache becomes empty, the answer is 201, and the invariant is kept; a body without `patch` is published with `patch` equal to `minor` |
| `Service.RepeatLookup` | src/app.js:35-47 | two identical lookups with nothing in between give identical answers; once stored, the key is in the cache |
| `Service.LookupAfterPublish` | src/app.js:35-75 | a lookup after a successful publish includes the new record when it is newer than the key; after a refused publish it repeats the earlier answer |
| `Service.PublishAsWritten` | src/app.js:55-81 | the route as written, without a return after the 401; `Service.UnauthorizedPublishIsListedAsWritten` states its effect |
| `Service.MissingPatchPublishesMinor` | src/app.js:60-63 | a body with `major` 1, `minor` 2 and no `patch` is stored as 1.2.2, and a client at 1.2.1 is offered it under the name "1.2.2" |
| `Service.UnauthorizedPublishIsListedAsWritten` | src/app.js:66-71 | as written, a publish answered 401 still lands in the catalog and is offered to clients |
| `Service.FormatLinux122` | src/app.js:20-25 | the canonical version string of LINUX 1.2.2 is "EDOPRO-LINUX-1.2.2", and its name is "1.2.2" |
| `Service.FormatLinux123` | src/app.js:20-25 | the canonical version string of LINUX 1.2.3 is "EDOPRO-LINUX-1.2.3", and its name is "1.2.3" |
| `Service.ParseLinux122` | src/app.js:17-25 | "EDOPRO-LINUX-1.2.2" parses to LINUX 1.2.2 |
| `Service.ParseLinux123` | src/app.js:17-25 | "EDOPRO-LINUX-1.2.3" parses to LINUX 1.2.3 |
| `Service.ParseGarbage` | src/app.js:17-18 | "garbage" is rejected |
| `Service.PublishThenLookup` | src/app.js:33-76 | after LINUX 1.2.3 is published to an empty catalog, a client at 1.2.2 gets `[{name: "1.2.3", md5: "h1", url: "u1"}]`, a client at 1.2.3 gets `[]`, and "garbage" gets 400 |

## Left out

- Express plumbing: routing, `next()`, `express.json()`, morgan and debug logging, `app.listen` and `module.exports` (src/app.js:1-13, 83-87). Responses are the `Response` datatype.
- Storage: SQLite and `db.js` (db.js is not part of this model). The two tables are the `catalog` sequence and the `cache` map. An insert transaction either commits or leaves no trace (`appendOk`).
- Publish: a failure of the `DELETE FROM responses` that follows a committed insert is not modelled. In the source it answers 400 and leaves stale cache entries; `Publish` assumes the delete succeeds.
- JSON: serialisation and `res.json` are left out, and the cache holds the answer itself. In the source a cache hit passes the stored JSON text to `res.json`, which sends it as a JSON string rather than as an array. The model does not distinguish the two encodings.
- Lookup input: the choice between the `version` query parameter and the `User-Agent` header (src/app.js:16, 19) is request plumbing, and `Lookup` takes `Option<string>`. When neither is present, the source throws at `.match` on `undefined` (a server error), whereas the model answers 400.
- Numbers: they are unbounded `nat`s. The rounding of `parseInt` above 2^53 and SQLite's 64-bit integer columns are not modelled.
- Publish body: a number that is present but not a non-negative integer (a string, a fraction) is not modelled, because `PublishBody` only carries `Option<nat>`. A missing `url` or `hash`, which the source would store as NULL, is not modelled either.
- Publish body: whether `patch = parseInt(minor)` (src/app.js:63) was meant to read `patch` is not decided. The model follows the code, where a missing `patch` takes the value of `minor` (`Service.PatchOf`).
- Configuration: `HERCULES_BASE_SECRET` is the `secret` parameter, `Date.now()` is the `now` parameter, and `HERCULES_BASE_PORT` is left out. The case of an unset secret, where a body without `authToken` would pass the check, is not modelled.
- Concurrency: request interleavings and last-write-wins on the cache are left out. Each request is one atomic method call.
- Duplicate version tuples: the catalog does not forbid them. The model lists records with equal versions in catalog order, where SQL leaves their order unspecified.
- `Catalog.QueryAsWritten`: models the text comparison of src/app.js:42 only on ASCII names. Its order among records with equal names is fixed arbitrarily.

## Findings

| source | as written | input that shows it | evidently intended | confidence | as-written member | corrected member |
|---|---|---|---|---|---|---|
| src/app.js:42 | selects `name > ?` and sorts `ORDER BY name` on the text `major.minor.patch`, so "1.10.0" counts as below "1.9.0" | catalog holds LINUX 1.10.0; lookup with `EDOPRO-LINUX-1.9.0` answers `[]` | compare and sort on the numeric (major, minor, patch) tuple, so the answer is `[1.10.0]` | not executed; medium (depends on the `urls` schema in db.js, which is not part of this model) | `Catalog.TextOrderSkipsMinorTen` | `Catalog.SelectNewer` |
| src/app.js:66-68 | answers 401 on a token mismatch but does not return, so the insert and the cache clear still run | body with `major` and `minor` and a wrong `authToken` | refuse before any write | not executed; high | `Service.UnauthorizedPublishIsListedAsWritten` | `Service.PatchService.Publish` |

The text-order query as written is `Catalog.QueryAsWritten`, and the publish
route as written is `Service.PublishAsWritten`. Everything else in the model
uses the corrected definitions.
