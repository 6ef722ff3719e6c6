/**
 * The progress store: at most one row per (user, content item, lesson),
 * written by upsert and counted per lesson and user.
 */
module Progress {

  /** External (Telegram) user identifier. */
  type UserId = int

  /** The user every progress count is taken for in the lesson query. */
  const SourceUserId: UserId := 666

  /** The composite unique key `tgUserId_contentId_lessonId`. */
  datatype ProgressKey = ProgressKey(tgUserId: UserId, contentId: string, lessonId: string)

  /** A progress row: the key's three fields and the latest result. */
  datatype ProgressRow = ProgressRow(tgUserId: UserId, contentId: string, lessonId: string, isCorrect: bool)

  /** The store's progress table: each key maps to its row's `isCorrect`. */
  type ProgressStore = map<ProgressKey, bool>

  function KeyOf(row: ProgressRow): ProgressKey
  {
    ProgressKey(row.tgUserId, row.contentId, row.lessonId)
  }

  /** The rows of the table, as the store would list them. */
  function Rows(store: ProgressStore): (rows: set<ProgressRow>)
    ensures forall row :: row in rows <==> KeyOf(row) in store && store[KeyOf(row)] == row.isCorrect
  {
    set k | k in store :: ProgressRow(k.tgUserId, k.contentId, k.lessonId, store[k])
  }

  /**
   * `createProgress`: upsert by the composite key. An existing row gets the
   * new `isCorrect`; otherwise a row with all four fields is created.
   */
  function Upsert(store: ProgressStore, input: ProgressRow): (r: ProgressStore)
    ensures r.Keys == store.Keys + {KeyOf(input)}
    ensures r[KeyOf(input)] == input.isCorrect
    ensures forall k :: k in store && k != KeyOf(input) ==> r[k] == store[k]
  {
    store[KeyOf(input) := input.isCorrect]
  }

  /**
   * The keys the `where` filter of `progress.count` matches for a lesson and
   * a user; a helper of `ProgressCount`.
   */
  function LessonKeys(store: ProgressStore, user: UserId, lessonId: string): set<ProgressKey>
  {
    set k | k in store && k.lessonId == lessonId && k.tgUserId == user
  }

  /**
   * `progress.count({ where: { lessonId, tgUserId } })`: the number of rows
   * for the lesson and the user, whatever their `isCorrect`.
   */
  function ProgressCount(store: ProgressStore, user: UserId, lessonId: string): (n: nat)
    ensures n <= |store|
  {
    var keys := LessonKeys(store, user, lessonId);
    assert keys <= store.Keys;
    SubsetCardinality(keys, store.Keys);
    |keys|
  }

  lemma SubsetCardinality<T>(a: set<T>, b: set<T>)
    requires a <= b
    ensures |a| <= |b|
  {
    assert b == a + (b - a);
  }

  /** After an upsert the table holds exactly one row for the key, carrying the new result. */
  lemma UpsertStoresOneRow(store: ProgressStore, input: ProgressRow)
    ensures input in Rows(Upsert(store, input))
    ensures forall row :: row in Rows(Upsert(store, input)) && KeyOf(row) == KeyOf(input) ==> row == input
    ensures forall row :: row in Rows(store) && KeyOf(row) != KeyOf(input) ==> row in Rows(Upsert(store, input))
  {
  }

  /** Performing the same upsert twice gives the same table as performing it once. */
  lemma UpsertIdempotent(store: ProgressStore, input: ProgressRow)
    ensures Upsert(Upsert(store, input), input) == Upsert(store, input)
  {
  }

  /** Recording twice for one key keeps one row, with the most recent result. */
  lemma UpsertLastWins(store: ProgressStore, first: ProgressRow, second: ProgressRow)
    requires KeyOf(first) == KeyOf(second)
    ensures Upsert(Upsert(store, first), second) == Upsert(store, second)
  {
  }

  /** An upsert on a key already present changes no count. */
  lemma {:induction false} UpsertExistingKeepsCounts(store: ProgressStore, input: ProgressRow, user: UserId, lessonId: string)
    requires KeyOf(input) in store
    ensures ProgressCount(Upsert(store, input), user, lessonId) == ProgressCount(store, user, lessonId)
  {
    assert LessonKeys(Upsert(store, input), user, lessonId) == LessonKeys(store, user, lessonId);
  }

  /**
   * An upsert on a new key raises the count of its own lesson and user by
   * exactly one and leaves every other count unchanged.
   */
  lemma {:induction false} UpsertNewKeyCounts(store: ProgressStore, input: ProgressRow, user: UserId, lessonId: string)
    requires KeyOf(input) !in store
    ensures ProgressCount(Upsert(store, input), user, lessonId)
         == ProgressCount(store, user, lessonId) + (if user == input.tgUserId && lessonId == input.lessonId then 1 else 0)
  {
    var before := LessonKeys(store, user, lessonId);
    var after := LessonKeys(Upsert(store, input), user, lessonId);
    if user == input.tgUserId && lessonId == input.lessonId {
      assert after == before + {KeyOf(input)};
    } else {
      assert after == before;
    }
  }

  /**
   * The progress table as a store object: `createProgress` replaces the
   * table by its upsert and returns the resulting row.
   */
  class ProgressTable {
    var rows: ProgressStore

    constructor ()
      ensures rows == map[]
    {
      rows := map[];
    }

    method CreateProgress(input: ProgressRow) returns (row: ProgressRow)
      modifies this
      ensures rows == Upsert(old(rows), input)
      ensures row == input && row in Rows(rows)
    {
      rows := Upsert(rows, input);
      row := input;
    }
  }
}
