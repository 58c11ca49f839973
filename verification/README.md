# Bucket service — a Dafny model of its tag and history logic

The bucket service stores *tests* (a uuid, a name, a project, an app area and
a *bucket*: a free-text string such as `[dt_chrome_regression] [dt_ie_regression]`
holding bracketed *tags*) and *projects* (a name, a description and a list of
app areas). When a test's bucket changes, the service records, per removed
tag, a *history slot* in the test's `metaInfo` object: the tag it moved from
(`lastKnownBucket`), the tag it moved to (`currentBucket`) and when
(`bucketUpdatedAt`).

This project models, in Dafny:

- `utils.dfy` (module `Utils`): `extractTags` (the `/\[[^\]]+\]/g` scan),
  `filterTags`, `getDifference` (two lodash `_.difference` calls) and
  `getObjForTag` (the first slot, in key order, whose current bucket is a tag).
- `test_history.dfy` (module `TestHistory`): the history loop of the test
  `updateOne` as a method with a loop over the `metaInfo` object, proved
  against the predicate `Reconciled`, and the seeding loop of the test
  `createOne`, proved against `Seeded`.
- `test_routes.dfy` (module `TestRoutes`): `isValidTestRecord`,
  `containsValidAppArea`, the required keys and disallowed characters, and
  the test collection as a class keyed by (project, uuid) with `getOne`,
  `createOne`, `updateOne` and `deleteOne`.
- `project_routes.dfy` (module `ProjectRoutes`): `isValidProjectRecord`,
  `_.compact`, the present-and-truthy merge, and the project collection as a
  class keyed by name with `getOne`, `createOne`, `updateOne` and `deleteOne`.
- `scenarios.dfy` (module `Scenarios`): the cases of the repository's unit
  and integration tests, stated about the model.
- `optional.dfy`, `http.dfy`: `null`-or-value and callback results; response
  statuses.

A JavaScript object's key order (`Object.keys`, insertion order) matters to
`getObjForTag`, so a `metaInfo` object is a `MetaInfo(keys, entries)`: the
keys in order and the map of values, kept consistent by `WellFormed`.
`metaInfo[k] = v` keeps an existing key in place and appends a new one.
New history keys (Mongo ObjectIds) come from a sequence `mint` of distinct
keys, none already in the object and none equal to a legacy key name. The
`Date` of an operation is a parameter `now`.

Three behaviours of the code shape the model:
- `extractTags` of a string with no tag is `null`.
- `getDifference` keeps duplicates of its first list (lodash semantics).
- The history loop runs over every removed tag. Past the end of the added
  tags, `currentBucket` is `undefined`.

## Model

| member | source | states |
|---|---|---|
| Utils.ExtractTags | lib/utils.js:24-29 | An array is returned unchanged, and any other non-string gives `[]`. A string gives `null` or a non-empty list. Every element starts with `[`, ends with `]`, has at least one character between, and has no `]` inside. |
| Utils.ScanFromLeftmost | lib/utils.js:28 | The regex scan takes the leftmost match and resumes right after it, so no match is skipped and no two matches overlap. |
| Utils.ExtractTagsNullIffNoMatch | lib/utils.js:28 | A string gives `null` exactly when the pattern matches at no position. |
| Utils.ExtractTagsJoin | lib/utils.js:28 | Round trip: tags written out with a separator containing no `[` are extracted back exactly, in order. The result is `null` only for no tags. |
| Utils.FilterTags | lib/utils.js:31-34 | A falsy list gives `[]`. Otherwise each tag ending in the suffix is kept as many times as it occurs, and no other tag is kept. |
| Utils.KeepEndingAppend | lib/utils.js:33 | The filter distributes over concatenation, so kept tags stay in their original order. |
| Utils.Difference | lib/utils.js:6 | lodash `_.difference`: a missing first list gives `[]`, and a missing second list excludes nothing. An element of the second list occurs 0 times; any other element occurs as often as in the first list. The result is the first list's `Without` the second, so `WithoutAppend` fixes its order. |
| Utils.WithoutAppend | lib/utils.js:6 | The difference distributes over concatenation of its first list, so order is kept. |
| Utils.GetDifference | lib/utils.js:3-7 | `oldTags` holds exactly the old tags missing from the new bucket, with their multiplicity; `newTags` is the reverse. Membership is stated in both directions, and the two lists share no tag. |
| Utils.GetDifferenceSelf | lib/utils.js:3-7 | A bucket compared with itself gives two empty lists. |
| Utils.GetObjForTag | lib/utils.js:9-22 | `null` for a missing `metaInfo` or when no object value has `currentBucket === tag`. On success it returns the first such key in key order with exactly its value. A non-empty first such key always gives a result. |
| TestHistory.Put | lib/routes/test.js:286 | `metaInfo[key] = metaObj` keeps the object well formed and sets exactly that entry. |
| TestHistory.DeleteKeys | lib/routes/test.js:289-291 | `delete` of the legacy keys keeps the object well formed and removes exactly those entries. |
| TestHistory.LookupAfterClaims | lib/routes/test.js:272 | Inside the loop, `getObjForTag` on the partly updated object finds what `Reusable` names on the original: the first slot tracking the tag that no earlier round has claimed. |
| TestHistory.StepChoice | lib/routes/test.js:272-282 | The key chosen in a round is the reusable slot when there is one, and otherwise the next unused key of `mint`, which is not yet a key of the object. |
| TestHistory.ProgressStep | lib/routes/test.js:271-287 | One round keeps the loop invariant: the slots written so far, their values, the untouched slots and the key order. |
| TestHistory.ProgressDone | lib/routes/test.js:289-291 | After the last round, deleting the legacy keys gives the reconciled object. |
| TestHistory.ReconcileHistory | lib/routes/test.js:267-295 | For each removed tag `i`, the written slot holds `lastKnownBucket = oldTags[i]`, `currentBucket = newTags[i]` (or none past the end) and `bucketUpdatedAt = now`. That slot is the existing slot tracking the tag, or else a new key. Other slots are unchanged. Only the two legacy keys disappear, and new keys come last in key order. |
| TestHistory.ReconcileSameBucket | lib/routes/test.js:267-295 | Resubmitting the stored bucket writes no slot and only deletes the legacy keys. |
| TestHistory.SeedHistory | lib/routes/test.js:172-184 | A new test's history has one new slot per tag ending in `_new]`, in order. Each holds `""` as last bucket, the tag as current bucket and `now`. There is no other key. |
| TestHistory.SeededLookup | lib/routes/test.js:177-184 | A slot seeded at creation is the one `getObjForTag` later finds for its tag, so an update records that tag's change in that slot. |
| TestRoutes.RequiredKeysAre | lib/routes/test.js:465-467 | The required keys of a test are `bucket`, `uuid` and `project`. |
| TestRoutes.ContainsValidAppArea | lib/routes/test.js:473-480 | It errors for an empty project name, an unknown project or `null` app areas. Otherwise it returns whether the app area is listed. It is true exactly when the project exists and lists the app area. |
| TestRoutes.IsValidTestRecord | lib/routes/test.js:482-503 | It rejects, in order: a null record, a falsy `bucket`/`uuid`/`project`, a uuid containing a comma or a pipe, then an app area the project does not list (or an app-area lookup error). It accepts exactly the remaining records. |
| TestRoutes.TestStore.GetOne | lib/routes/test.js:42-62 | It finds the test exactly when one is stored under that project and uuid. |
| TestRoutes.TestStore.CreateOne | lib/routes/test.js:142-209 | An invalid record gives 400 with the validation message, and nothing is stored. An existing (project, uuid) gives 409, and nothing is stored. Otherwise it gives 201 and stores the record with a seeded history. Existing tests are never touched, and the collection invariant is kept. |
| TestRoutes.TestStore.UpdateOne | lib/routes/test.js:253-339 | A missing test gives 404. An app-area lookup error gives 500, and an unlisted app area gives 404; in both cases nothing is saved, including the pending name and bucket edits. Otherwise it gives 200 and saves the name if truthy, and the bucket with the reconciled history if the bucket is truthy. Uuid and project never change. |
| TestRoutes.TestStore.DeleteOne | lib/routes/test.js:371-405 | An unknown test gives 404 and no change. Otherwise it gives 200 and removes exactly that test. |
| ProjectRoutes.IsValidProjectRecord | lib/routes/project.js:359-366 | False for null; true exactly when `name` is truthy. |
| ProjectRoutes.Compact | lib/routes/project.js:140 | `_.compact` keeps exactly the non-empty entries and never lengthens the list. |
| ProjectRoutes.CompactAppend | lib/routes/project.js:140 | `_.compact` distributes over concatenation, so order is preserved. |
| ProjectRoutes.CompactIdempotent | lib/routes/project.js:140 | Compacting twice is compacting once. |
| ProjectRoutes.NewProject | lib/routes/project.js:137-141 | The created document keeps the name and description. Its app areas are present and are the body's with falsy entries removed. |
| ProjectRoutes.MergeFields | lib/routes/project.js:217-219 | Each field is taken from the body when present and truthy, and kept otherwise. A present `appAreas` replaces the old list whole. |
| ProjectRoutes.MergeIdempotent | lib/routes/project.js:217-219 | Applying the same update twice is applying it once. |
| ProjectRoutes.MergeEmptyBody | lib/routes/project.js:217-219 | A body without truthy fields leaves the project unchanged. |
| ProjectRoutes.FindFirst | lib/routes/project.js:208-216 | `projects[0]` of `find({ name })`: the first document with that name, or none. |
| ProjectRoutes.UpdateInCollection | lib/routes/project.js:203-242 | As written: the first document with `findName` becomes its merge with the body, whatever name that gives it, and no other document is touched. |
| ProjectRoutes.RenameBreaksUniqueNames | lib/routes/project.js:217 | As written, renaming a project onto another project's name leaves two documents with that name. |
| ProjectRoutes.RenameOntoExistingName | lib/routes/project.js:217 | Projects `a` and `b`: renaming `a` to `b` gives two projects named `b`. |
| ProjectRoutes.ProjectStore.GetOne | lib/routes/project.js:31-50 | It finds the project exactly when one has that name. |
| ProjectRoutes.ProjectStore.CreateOne | lib/routes/project.js:117-165 | An invalid body gives 400, and a taken name gives 409; neither inserts. Otherwise it gives 201 and inserts the compacted new project. Existing projects are never touched. |
| ProjectRoutes.ProjectStore.UpdateOne | lib/routes/project.js:203-242 | An unknown name gives 404 and no change. Otherwise it merges the present-and-truthy fields and gives 200. The rename check is the corrected behaviour (see Findings): a rename onto another project's name gives 409 and no change, and the number of projects is kept. |
| ProjectRoutes.ProjectStore.DeleteOne | lib/routes/project.js:268-301 | An unknown name gives 404 and no change. Otherwise it gives 200 and removes exactly that project. |
| Scenarios.ExtractTagsExample | test/unit/utils-spec.js:17-22 | `[dt_chrome_regression] [dt_ie_regression]` gives both tags in order. |
| Scenarios.FilterTagsExample | test/unit/utils-spec.js:38-50 | The `_new]` tag is kept and the other dropped; a `null` list gives `[]`. |
| Scenarios.SharedTagDropped | lib/utils.js:3-7 | Two buckets sharing their second tag differ only in their first tags. |
| Scenarios.GetDifferenceExample | test/unit/utils-spec.js:9-15 | The shared `[dt_ie_regression]` is dropped from both sides. |
| Scenarios.GetObjForTagExample | test/unit/utils-spec.js:52-85 | The slot whose current bucket is the tag is found; `null` gives `null`. |
| Scenarios.OneRemovalOnEmptyHistory | lib/routes/test.js:271-291 | On an empty history, one removed tag gives exactly one slot: a new key holding that tag's transition. |
| Scenarios.UpdateRecordScenario | test/integration/bucket-service-spec.js:64-83 | Replacing one tag by another on an empty history gives one slot with the old tag as last known and the new one as current. |
| Scenarios.NoNewTagNoSeed | test/integration/bucket-service-spec.js:47-62 | A bucket whose only tag does not end in `_new]` seeds an empty history. |
| Scenarios.IntegrationBuckets | test/integration/bucket-service-spec.js:16-21 | The integration test's buckets meet the conditions of the two scenarios above. |

## Left out

- HTTP plumbing (response bodies, callbacks, route registration) is left out. Outcomes are a status and, for test creation, the validation message.
- MongoDB persistence is left out. Each collection is an in-memory map: tests are keyed by (project, uuid), and projects by name. `find(...)[0]` reads the map. Database errors, and the 500 responses they cause, are not modelled. Neither is the `findErr` fall-through of both `createOne`s.
- `mongo-sanitize` is taken as the identity on strings.
- `Date` and ObjectId generation are left out: the time is the parameter `now`, and new keys come from the distinct sequence `mint`.
- `searchField` and `getAll` in both route files are left out. The first is a regex query run by the database; the second lists the whole collection.
- Swagger, the healthcheck, the server start-up and the test harness are left out.
- JavaScript values of the wrong type are only partly modelled. A request field that is `undefined`, `null` or `''` is `""`, because every branch treats the three alike. A bucket that is neither a string nor an array is `Other`. Non-string array elements are not modelled.
- Values under `metaInfo` are a slot object or `NonObject`. `bucketUpdatedAt` is an integer instant.
- The test `updateOne`'s `test.project = params.project` is left out: it writes back the value the test was found by.
- TestRoutes.TestStore.UpdateOne: requires `mint` to be able to supply one key per removed tag. The source's ObjectId generator never runs out.

## Findings

| source | as written | input that shows it | evidently intended | confidence | as-written member | corrected member |
|---|---|---|---|---|---|---|
| lib/routes/project.js:217 | The project `updateOne` sets `project.name = newName` without checking whether another project already has that name. | Projects `a` and `b` exist; `PUT /projects/a` with body `{ "name": "b" }`. | Project names stay unique, as `createOne` enforces with its 409 response; the rename is refused with 409. | medium; not executed | ProjectRoutes.RenameOntoExistingName | ProjectRoutes.ProjectStore.UpdateOne |
