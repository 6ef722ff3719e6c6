# Lesson sequencing and progress projection

A Dafny model of the logic inside the GraphQL resolvers of a course/lesson
backend (`src/resolvers/index.ts`). The resolvers mostly pass requests to the
database client. Four pieces compute something, and these are modelled here:

- **Lesson linker** (`createCourse`). The store returns the lessons it has just
  inserted. A `for` loop then gives each lesson a `prevLessonId` and a
  `nextLessonId`, which turns the array into a doubly linked chain. It is
  modelled in `lessons.dfy` in two forms. `Lessons.LinkLessons` is an in-place
  method over an `array<Lesson>`, and it models the loop as written, including
  its failure on a one-lesson course. `Lessons.Link` is the corrected linker
  that the rest of the model uses. Lemmas cover the pointer neighbourhood, the
  fields the linker leaves alone, the agreement between next and previous
  pointers, and walking the chain in both directions.
- **Estimated-item counter** (`getCountIsEstimatedTrue`). A left fold over the
  content items that counts the ones whose `isEstimated` is true
  (`Content.CountEstimated`, in `content.dfy`).
- **Lesson projection** (`getLesson`). Each lesson's content is sorted in place
  with the comparator `a.orderBy - b.orderBy`, which ECMAScript 2019 requires
  to be a stable sort. The view also carries `contentTotal`,
  `contentTotalIsEstimated` and `userProgress`, which holds the done count and
  the percentage. `Content.SortByOrder` specifies the sort. It is proved
  sorted, a permutation and stable, and it is proved to be the only sequence
  with all three properties. `Content.SortContent` is an in-place insertion
  sort on an array, proved equal to `SortByOrder`. The percentage is in
  `percent.dfy` and the view is assembled in `projection.dfy`.
- **Progress store** (`createProgress` upsert, `progress.count`). The progress
  table is a map from the unique key `(tgUserId, contentId, lessonId)` to
  `isCorrect` (`progress.dfy`). Upsert is a map update. The count is the number
  of keys for a lesson and a user. Lemmas cover the frame conditions,
  idempotence, last-write-wins, and how an upsert changes each count.

Modules:
- `Wrappers`: `Option`, `Result`, `Outcome`.
- `Content`: content items, the fold and the sort.
- `Lessons`: the lesson record and the linker.
- `Progress`: the progress table.
- `Percent`: the percentage.
- `Projection`: the lesson query.

The source takes every progress count for user `666`, a constant
(`src/resolvers/index.ts:63`). The model instead takes the user as a parameter.
`Progress.SourceUserId` names the constant, and passing it as the user gives
the source's behaviour.

The linker follows the order of the array the store returns, not `orderBy`.
The chain matches `orderBy` order only when the store returns the lessons in
that order, and the model takes the returned order as given.

## Model

| member | source | states |
|---|---|---|
| `Content.CountEstimated` | src/resolvers/index.ts:50-57 | The reduce fold never exceeds the number of items, and it is 0 when no item is estimated |
| `Content.CountEstimatedIsIndexCount` | src/resolvers/index.ts:50-57 | The fold equals the number of positions that hold an item with `isEstimated == true` |
| `Content.SortByOrder` | src/resolvers/index.ts:74-75 | The stable ascending sort by `orderBy`; it keeps the length, so `contentTotal` equals the input length. Its other properties are in the lemma rows that follow |
| `Content.SortByOrderSorted` | src/resolvers/index.ts:85 | The sorted content is non-decreasing by `orderBy` |
| `Content.SortByOrderPermutation` | src/resolvers/index.ts:85 | The sorted content is a permutation of the input (equal multisets) |
| `Content.SortByOrderStable` | src/resolvers/index.ts:85 | For every key, the items with that `orderBy` keep their input order (stability) |
| `Content.StableSortIsUnique` | src/resolvers/index.ts:74 | Any sorted, order-preserving rearrangement of the content equals `SortByOrder`, so the model agrees with every stable sort the engine might use |
| `Content.SortByOrderKeepsEstimatedCount` | src/resolvers/index.ts:74-76 | Counting estimated items on the array after the in-place sort gives the same count as on the stored order |
| `Content.SortContent` | src/resolvers/index.ts:85 | The in-place sort leaves the array equal to `SortByOrder` of its old contents |
| `Progress.Rows` | src/resolvers/index.ts:96-114 | A row is in the table exactly when its key is stored with that `isCorrect` |
| `Progress.Upsert` | src/resolvers/index.ts:96-114 | The key is present afterwards with the new `isCorrect`, no other key is added, and every other key keeps its value |
| `Progress.ProgressCount` | src/resolvers/index.ts:59-66 | The count for a lesson and a user is at most the number of stored rows |
| `Progress.UpsertStoresOneRow` | src/resolvers/index.ts:96-114 | After an upsert the row for the key is exactly the input row, and every row with another key survives |
| `Progress.UpsertIdempotent` | src/resolvers/index.ts:96-114 | Performing the same upsert twice gives the same table as performing it once |
| `Progress.UpsertLastWins` | src/resolvers/index.ts:105-107 | Two upserts on one key leave the table as the second upsert alone would: one row, with the latest `isCorrect` |
| `Progress.UpsertExistingKeepsCounts` | src/resolvers/index.ts:59-66 | An upsert on an existing key leaves every lesson/user count unchanged |
| `Progress.UpsertNewKeyCounts` | src/resolvers/index.ts:108-113 | An upsert on a new key raises its own lesson/user count by exactly one and leaves every other count unchanged |
| `Progress.ProgressTable.CreateProgress` | src/resolvers/index.ts:96-114 | Replaces the table by its upsert and returns the input row, which is then in the table |
| `Percent.DonePercentAsWritten` | src/resolvers/index.ts:90 | The expression as written, on exact integers: the result is a finite number exactly when the estimated count is positive, and then it is the floor of `done * 100 / estimated` |
| `Percent.NoEstimatedItemsIsNotANumber` | src/resolvers/index.ts:79 | With no estimated items the expression is NaN (`done == 0`) or Infinity (`done > 0`), never a number |
| `Percent.DonePercent` | src/resolvers/index.ts:90 | The corrected percentage: the floor of `done / estimated * 100`, and 0 when nothing is estimated |
| `Percent.DonePercentAgrees` | src/resolvers/index.ts:90 | Whenever the expression as written gives a number, the corrected percentage gives the same number |
| `Percent.DonePercentBounds` | src/resolvers/index.ts:90 | Nothing done gives 0%, everything done gives 100%, and done at most estimated gives at most 100% |
| `Percent.DonePercentMonotone` | src/resolvers/index.ts:90 | The percentage never decreases as the done count grows |
| `Percent.DonePercentUnique` | src/resolvers/index.ts:90 | The floor relation determines the percentage: no other integer satisfies it |
| `Lessons.InsertedLessons` | src/resolvers/index.ts:129-137 | The rows given to `createMany` carry the inputs' name, content and `orderBy`, and have both pointers null |
| `Lessons.Link` | src/resolvers/index.ts:146-160 | Linking keeps every id, name, `orderBy`, content and the length, and turns unlinked lessons into a well-formed chain for every length, including one |
| `Lessons.LinkAsWritten` | src/resolvers/index.ts:148-160 | The loop as written fails exactly for a one-lesson course, and otherwise keeps all lesson data |
| `Lessons.LinkLessons` | src/resolvers/index.ts:146-160 | The in-place loop fails on a one-lesson course and leaves the array untouched; otherwise it succeeds and leaves the linked array |
| `Lessons.SingleLessonCourseFails` | src/resolvers/index.ts:149-151 | With one lesson the loop as written fails reading index 1, while leaving that lesson's two null pointers is already a well-formed chain |
| `Lessons.LinkAsWrittenAgrees` | src/resolvers/index.ts:148 | For every length except one the loop as written gives the corrected result, and an empty list stays empty |
| `Lessons.LinkNeighbours` | src/resolvers/index.ts:149-159 | Lesson 0 keeps its predecessor and gets lesson 1 as successor; the last keeps its successor and gets the one before as predecessor; the others get both neighbours |
| `Lessons.LinkedPointersAgree` | src/resolvers/index.ts:152-159 | With distinct ids, lesson i names lesson j as next exactly when j names i as previous, and exactly when j == i + 1 |
| `Lessons.ChainTraversal` | src/resolvers/index.ts:146-160 | In a well-formed chain with distinct ids, following next pointers from the first lesson visits every lesson in order, and following previous pointers from the last visits them in reverse |
| `Lessons.NewCourseChain` | src/resolvers/index.ts:129-160 | A new course's lessons, inserted unlinked and then linked, form a chain whose forward walk yields the assigned ids in order |
| `Projection.ProjectLesson` | src/resolvers/index.ts:85-91 | The view has the content sorted, permuted and stable, `contentTotal` = length, `contentTotalIsEstimated` = number of estimated items, done = the user's row count for the lesson, and the percentage related to these |
| `Projection.ProjectionIsUnique` | src/resolvers/index.ts:85-91 | Any view with the projection's properties equals `ProjectLesson`, so the contract leaves nothing unspecified |
| `Projection.GetLesson` | src/resolvers/index.ts:68-92 | The requested lesson and each lesson of its course are projected with the same per-lesson rules, keeping the course's lessons in the order given, which the query asks the store to sort by ascending `orderBy` |
| `Projection.RecordingProgressUpdatesView` | src/resolvers/index.ts:78 | Recording a new row raises the matching lesson view's done count by one; overwriting an existing row changes no view's count |

## Findings

| source | as written | input that shows it | evidently intended | confidence | as-written member | corrected member |
|---|---|---|---|---|---|---|
| src/resolvers/index.ts:149-151 | The `i === 0` branch always reads `currentLessons[i + 1].id` | A course created with exactly one lesson: index 1 is `undefined` and reading `.id` throws, so the link update is never written (`Lessons.SingleLessonCourseFails`) | The single lesson keeps both pointers null | high; not executed | `Lessons.LinkAsWritten` | `Lessons.Link` |
| src/resolvers/index.ts:79 | `Math.floor(done / estimated * 100)` divides by the estimated count unguarded | A lesson with no estimated item: `0/0` is NaN, and `d/0` with `d > 0` is Infinity (`Percent.NoEstimatedItemsIsNotANumber`) | A number: 0% when nothing is estimated | medium; not executed | `Percent.DonePercentAsWritten` | `Percent.DonePercent` |

## Left out

- Database calls (`findUnique`, `findMany`, `create`, `createMany`, `update`, `upsert`, `count`) and the GraphQL wiring. The store appears only as the progress map, and the lessons it returns are inputs.
- Pass-through resolvers with no logic: `getProgress` (query), `getCourses`, `getCourse`, `getLessons`, `createLesson`, `updateLesson`, `deleteLesson`.
- `Date.now()` timestamps: they are nondeterministic, and no stated behaviour depends on them.
- The follow-up `course.update` that persists the links is not modelled. Nor is the fact that the two-phase create is not atomic: a failure between the phases leaves lessons unlinked. Both are store and transaction concerns.
- The lesson query when `findUnique` finds no lesson: the source dereferences `null`. `Projection.GetLesson` takes the found lesson as input.
- The sibling lessons are projected inside an `async` callback passed to `map`, so the source actually returns unawaited promises for them. The model projects each sibling with the same pure per-lesson function.
- `Percent.DonePercentAsWritten` and `Percent.DonePercent`: both compute on exact integers. The source computes in floating point, where `Math.floor(29 / 100 * 100)` is 28 because of rounding. The model does not capture such double-rounding discrepancies.
- `Projection.ProjectLesson`: takes the done count from one snapshot of the progress table and uses it for both `contentTotalDone` and `contentTotalDonePercent`. The source issues a separate `progress.count` query for each field (lines 78-79 for each sibling, 89-90 for the requested lesson). The sibling queries run in overlapping async callbacks, and nothing runs in a transaction, so a `createProgress` landing between two queries can make the percentage come from a different count than `contentTotalDone`. The model does not capture that interleaving.
- `Projection.ProjectLesson`: the view holds the corrected `Percent.DonePercent`, which is 0 when no item is estimated. In that case the source's view holds NaN or Infinity (lines 79 and 90). `Percent.DonePercentAsWritten` models the value as written.
- Content comparison uses exact integers for `orderBy`. The numeric comparator's behaviour on non-integer, NaN or very large `orderBy` values is not modelled.
- The source takes every progress count for the fixed user `666`. The model takes the user as a parameter, and `Progress.SourceUserId` gives the source's behaviour.
