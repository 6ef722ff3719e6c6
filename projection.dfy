/**
 * The lesson query: the requested lesson and every lesson of its course,
 * each with its content sorted by `orderBy`, its totals and the user's
 * progress.
 */
module Projection {
  import opened Content
  import opened Lessons
  import opened Progress
  import opened Percent

  /** The `userProgress` object of a lesson view. */
  datatype UserProgress = UserProgress(contentTotalDone: nat, contentTotalDonePercent: nat)

  /**
   * A lesson as the query returns it: the stored lesson with its content
   * sorted, followed by the computed fields.
   */
  datatype LessonView = LessonView(
    lesson: Lesson,
    contentTotal: nat,
    contentTotalIsEstimated: nat,
    userProgress: UserProgress)

  /** The query's result: the requested lesson's view and its course's lesson views. */
  datatype LessonPage = LessonPage(view: LessonView, courseLessons: seq<LessonView>)

  /**
   * What a view of lesson `l` for `user` must hold: the content sorted
   * stably by `orderBy`, the totals, and the progress count with its
   * percentage (0 when no item is estimated).
   */
  ghost predicate IsProjectionOf(v: LessonView, l: Lesson, store: ProgressStore, user: UserId)
  {
    && v.lesson == l.(content := v.lesson.content)
    && SortedByOrder(v.lesson.content)
    && multiset(v.lesson.content) == multiset(l.content)
    && SameKeyOrder(v.lesson.content, l.content)
    && v.contentTotal == |l.content|
    && v.contentTotalIsEstimated == |EstimatedIndices(l.content)|
    && v.userProgress.contentTotalDone == |LessonKeys(store, user, l.id)|
    && IsDonePercent(v.userProgress.contentTotalDonePercent, v.userProgress.contentTotalDone, v.contentTotalIsEstimated)
  }

  /** What the stable sort of a lesson's content keeps and establishes. */
  lemma SortedContent(c: seq<ContentItem>)
    ensures SortedByOrder(SortByOrder(c))
    ensures multiset(SortByOrder(c)) == multiset(c)
    ensures SameKeyOrder(SortByOrder(c), c)
    ensures |SortByOrder(c)| == |c|
    ensures CountEstimated(SortByOrder(c)) == |EstimatedIndices(c)|
  {
    SortByOrderSorted(c);
    SortByOrderPermutation(c);
    SortByOrderStable(c);
    SortByOrderKeepsEstimatedCount(c);
    CountEstimatedIsIndexCount(c);
  }

  /**
   * The per-lesson part of `getLesson`: sorts the content in place, then
   * counts it, counts its estimated items on the sorted array, and counts
   * the user's progress rows for the lesson.
   */
  function ProjectLesson(l: Lesson, store: ProgressStore, user: UserId): (v: LessonView)
    ensures IsProjectionOf(v, l, store, user)
  {
    var sorted := SortByOrder(l.content);
    SortedContent(l.content);
    var estimated := CountEstimated(sorted);
    var done := ProgressCount(store, user, l.id);
    var percent := DonePercent(done, estimated);
    LessonView(l.(content := sorted), |sorted|, estimated, UserProgress(done, percent))
  }

  /** A lesson has exactly one view: the projection leaves nothing unspecified. */
  lemma ProjectionIsUnique(v: LessonView, l: Lesson, store: ProgressStore, user: UserId)
    requires IsProjectionOf(v, l, store, user)
    ensures v == ProjectLesson(l, store, user)
  {
    var w := ProjectLesson(l, store, user);
    StableSortIsUnique(l.content, v.lesson.content);
    StableSortIsUnique(l.content, w.lesson.content);
    DonePercentUnique(v.userProgress.contentTotalDone, v.contentTotalIsEstimated, v.userProgress.contentTotalDonePercent);
  }

  /**
   * `getLesson` once the store has found lesson `l` and its course's
   * lessons, which the query asks for in ascending `orderBy` order: the same
   * projection applied to the lesson and to every lesson of the course, in
   * the order given.
   */
  function GetLesson(l: Lesson, courseLessons: seq<Lesson>, store: ProgressStore, user: UserId): (p: LessonPage)
    ensures IsProjectionOf(p.view, l, store, user)
    ensures |p.courseLessons| == |courseLessons|
    ensures forall i :: 0 <= i < |courseLessons| ==> IsProjectionOf(p.courseLessons[i], courseLessons[i], store, user)
  {
    LessonPage(
      ProjectLesson(l, store, user),
      seq(|courseLessons|, i requires 0 <= i < |courseLessons| => ProjectLesson(courseLessons[i], store, user)))
  }

  /**
   * A new progress row for a lesson changes that lesson's view for its user
   * by one more item done; an overwrite of an existing row changes no view's
   * count.
   */
  lemma RecordingProgressUpdatesView(l: Lesson, store: ProgressStore, input: ProgressRow, user: UserId)
    ensures ProjectLesson(l, Upsert(store, input), user).userProgress.contentTotalDone
         == ProjectLesson(l, store, user).userProgress.contentTotalDone
            + (if KeyOf(input) !in store && user == input.tgUserId && l.id == input.lessonId then 1 else 0)
  {
    if KeyOf(input) in store {
      UpsertExistingKeepsCounts(store, input, user, l.id);
    } else {
      UpsertNewKeyCounts(store, input, user, l.id);
    }
  }
}
