/**
 * Lessons of a course and the linker that runs after the bulk insert of a
 * new course: it turns the array of inserted lessons into a doubly linked
 * chain through `prevLessonId` and `nextLessonId`.
 */
module Lessons {
  import opened Wrappers
  import opened Content

  type LessonId = string

  /** A stored lesson; `prevLessonId`/`nextLessonId` are null (`None`) until linked. */
  datatype Lesson = Lesson(
    id: LessonId,
    name: string,
    orderBy: int,
    content: seq<ContentItem>,
    prevLessonId: Option<LessonId>,
    nextLessonId: Option<LessonId>)

  /** One lesson of the course-creation input. */
  datatype LessonInput = LessonInput(name: string, content: seq<ContentItem>, orderBy: int)

  /** Why the linking loop stops: it read a lesson past the end of the array. */
  datatype LinkError = MissingNeighbour(index: nat)

  /** Every lesson still has both pointers null. */
  predicate Unlinked(s: seq<Lesson>)
  {
    forall i :: 0 <= i < |s| ==> s[i].prevLessonId.None? && s[i].nextLessonId.None?
  }

  /** No two lessons share an id, as the store assigns them. */
  predicate DistinctIds(s: seq<Lesson>)
  {
    forall i, j :: 0 <= i < j < |s| ==> s[i].id != s[j].id
  }

  /** Two sequences hold the same lessons apart from the two pointers. */
  predicate SameLessonData(r: seq<Lesson>, s: seq<Lesson>)
  {
    |r| == |s| &&
    forall i :: 0 <= i < |s| ==>
      r[i].id == s[i].id && r[i].name == s[i].name &&
      r[i].orderBy == s[i].orderBy && r[i].content == s[i].content
  }

  /**
   * The chain invariant of a course's lessons, in array order: the first
   * has no predecessor, the last no successor, and each adjacent pair
   * points at each other.
   */
  predicate ChainWellFormed(s: seq<Lesson>)
  {
    (|s| > 0 ==> s[0].prevLessonId.None? && s[|s| - 1].nextLessonId.None?) &&
    forall i :: 0 <= i < |s| - 1 ==>
      s[i].nextLessonId == Some(s[i + 1].id) && s[i + 1].prevLessonId == Some(s[i].id)
  }

  /**
   * The rows handed to `createMany` for a new course, once the store has
   * assigned `ids`: both pointers start null.
   */
  function InsertedLessons(inputs: seq<LessonInput>, ids: seq<LessonId>): (r: seq<Lesson>)
    requires |ids| == |inputs|
    ensures |r| == |inputs| && Unlinked(r)
    ensures forall i :: 0 <= i < |r| ==>
      r[i].id == ids[i] && r[i].name == inputs[i].name &&
      r[i].content == inputs[i].content && r[i].orderBy == inputs[i].orderBy
  {
    seq(|inputs|, i requires 0 <= i < |inputs| =>
      Lesson(ids[i], inputs[i].name, inputs[i].orderBy, inputs[i].content, None, None))
  }

  /**
   * The lesson at index `i` after linking: a predecessor pointer where there
   * is a previous lesson, a successor pointer where there is a next one,
   * the pointer it had otherwise. A helper of `Link` and `LinkLessons`: one
   * pass of the loop body.
   */
  function LinkAt(s: seq<Lesson>, i: nat): Lesson
    requires i < |s|
  {
    s[i].(
      prevLessonId := if i > 0 then Some(s[i - 1].id) else s[i].prevLessonId,
      nextLessonId := if i < |s| - 1 then Some(s[i + 1].id) else s[i].nextLessonId)
  }

  /** The linker with the single-lesson course handled: that lesson keeps both pointers. */
  function Link(s: seq<Lesson>): (r: seq<Lesson>)
    ensures SameLessonData(r, s)
    ensures Unlinked(s) ==> ChainWellFormed(r)
  {
    var r := seq(|s|, i requires 0 <= i < |s| => LinkAt(s, i));
    LinkAtEach(s, r);
    r
  }

  /** A sequence built by `LinkAt` at every index keeps the data and links a chain. */
  lemma LinkAtEach(s: seq<Lesson>, r: seq<Lesson>)
    requires |r| == |s| && forall i :: 0 <= i < |s| ==> r[i] == LinkAt(s, i)
    ensures SameLessonData(r, s)
    ensures Unlinked(s) ==> ChainWellFormed(r)
  {
    if Unlinked(s) && |s| > 0 {
      assert r[0] == LinkAt(s, 0);
      assert r[|s| - 1] == LinkAt(s, |s| - 1);
      forall i | 0 <= i < |s| - 1
        ensures r[i].nextLessonId == Some(r[i + 1].id) && r[i + 1].prevLessonId == Some(r[i].id)
      {
        assert r[i] == LinkAt(s, i);
        assert r[i + 1] == LinkAt(s, i + 1);
      }
    }
  }

  /**
   * The linking loop as written: the branch for index 0 reads index 1, so
   * a course with one lesson fails before any lesson is changed.
   */
  function LinkAsWritten(s: seq<Lesson>): (r: Result<seq<Lesson>, LinkError>)
    ensures r.Failure? <==> |s| == 1
    ensures r.Success? ==> SameLessonData(r.value, s)
  {
    if |s| == 1 then Failure(MissingNeighbour(1)) else Success(Link(s))
  }

  /**
   * The `for` loop of `createCourse`, in place on the array of lessons the
   * store returned: index 0 gets its successor, the last index its
   * predecessor, every other index both.
   */
  method LinkLessons(a: array<Lesson>) returns (outcome: Outcome<LinkError>)
    modifies a
    ensures LinkAsWritten(old(a[..])).Failure? ==>
      outcome == Fail(LinkAsWritten(old(a[..])).error) && a[..] == old(a[..])
    ensures LinkAsWritten(old(a[..])).Success? ==>
      outcome == Pass && a[..] == LinkAsWritten(old(a[..])).value
  {
    ghost var s := a[..];
    var i := 0;
    while i < a.Length
      invariant 0 <= i <= a.Length
      invariant a.Length == 1 ==> i == 0
      invariant forall k :: 0 <= k < i ==> a[k] == LinkAt(s, k)
      invariant forall k :: i <= k < a.Length ==> a[k] == s[k]
    {
      if i == 0 {
        if i + 1 == a.Length {
          return Fail(MissingNeighbour(i + 1));
        }
        a[i] := a[i].(nextLessonId := Some(a[i + 1].id));
      } else if i == a.Length - 1 {
        a[i] := a[i].(prevLessonId := Some(a[i - 1].id));
      } else {
        a[i] := a[i].(prevLessonId := Some(a[i - 1].id), nextLessonId := Some(a[i + 1].id));
      }
      i := i + 1;
    }
    assert a[..] == Link(s);
    return Pass;
  }

  /** A single-lesson course makes the loop as written fail, where the chain is well formed as it is. */
  lemma SingleLessonCourseFails(s: seq<Lesson>)
    requires |s| == 1 && Unlinked(s)
    ensures LinkAsWritten(s) == Failure(MissingNeighbour(1))
    ensures Link(s) == s && ChainWellFormed(Link(s))
  {
  }

  /** For every other length the loop as written and the corrected linker agree, and an empty list is untouched. */
  lemma LinkAsWrittenAgrees(s: seq<Lesson>)
    requires |s| != 1
    ensures LinkAsWritten(s) == Success(Link(s))
    ensures s == [] ==> Link(s) == []
  {
  }

  /**
   * The pointers of a linked course in full: the first lesson keeps its
   * initial predecessor and gets the second as successor, the last keeps
   * its initial successor and gets the one before as predecessor, and
   * every lesson in between points at both neighbours.
   */
  lemma LinkNeighbours(s: seq<Lesson>, i: nat)
    requires i < |s|
    ensures Link(s)[i].prevLessonId == (if i == 0 then s[i].prevLessonId else Some(s[i - 1].id))
    ensures Link(s)[i].nextLessonId == (if i == |s| - 1 then s[i].nextLessonId else Some(s[i + 1].id))
  {
  }

  /** First index of a lesson with the given id. */
  function IndexOf(s: seq<Lesson>, id: LessonId): (r: Option<nat>)
    ensures r.Some? ==> r.value < |s| && s[r.value].id == id
    ensures r.None? ==> forall i :: 0 <= i < |s| ==> s[i].id != id
    decreases |s|
  {
    if s == [] then None
    else if s[0].id == id then Some(0)
    else match IndexOf(s[1..], id)
      case None => None
      case Some(j) => Some(j + 1)
  }

  lemma IndexOfDistinct(s: seq<Lesson>, i: nat)
    requires DistinctIds(s) && i < |s|
    ensures IndexOf(s, s[i].id) == Some(i)
  {
  }

  /** The ids met by following `nextLessonId` from `cur`, at most `fuel` lessons. */
  function WalkNext(s: seq<Lesson>, cur: Option<LessonId>, fuel: nat): seq<LessonId>
    decreases fuel
  {
    if fuel == 0 || cur.None? then []
    else match IndexOf(s, cur.value)
      case None => []
      case Some(i) => [cur.value] + WalkNext(s, s[i].nextLessonId, fuel - 1)
  }

  /** The ids met by following `prevLessonId` from `cur`, at most `fuel` lessons. */
  function WalkPrev(s: seq<Lesson>, cur: Option<LessonId>, fuel: nat): seq<LessonId>
    decreases fuel
  {
    if fuel == 0 || cur.None? then []
    else match IndexOf(s, cur.value)
      case None => []
      case Some(i) => [cur.value] + WalkPrev(s, s[i].prevLessonId, fuel - 1)
  }

  /** The ids of the lessons, in array order. */
  function Ids(s: seq<Lesson>): (r: seq<LessonId>)
    ensures |r| == |s| && forall k :: 0 <= k < |s| ==> r[k] == s[k].id
  {
    seq(|s|, k requires 0 <= k < |s| => s[k].id)
  }

  lemma {:induction false} WalkNextFrom(s: seq<Lesson>, i: nat)
    requires ChainWellFormed(s) && DistinctIds(s) && i < |s|
    ensures WalkNext(s, Some(s[i].id), |s| - i) == Ids(s)[i..]
    decreases |s| - i
  {
    IndexOfDistinct(s, i);
    if i < |s| - 1 {
      WalkNextFrom(s, i + 1);
      assert Ids(s)[i..] == [s[i].id] + Ids(s)[i + 1..];
    } else {
      assert Ids(s)[i..] == [s[i].id];
    }
  }

  lemma {:induction false} WalkPrevFrom(s: seq<Lesson>, i: nat)
    requires ChainWellFormed(s) && DistinctIds(s) && i < |s|
    ensures var w := WalkPrev(s, Some(s[i].id), i + 1);
      |w| == i + 1 && forall k :: 0 <= k <= i ==> w[k] == s[i - k].id
    decreases i
  {
    IndexOfDistinct(s, i);
    if i > 0 {
      WalkPrevFrom(s, i - 1);
    }
  }

  /**
   * In a well-formed chain with distinct ids, following `nextLessonId` from
   * the first lesson visits every lesson in array order, and following
   * `prevLessonId` from the last visits them in reverse.
   */
  lemma ChainTraversal(s: seq<Lesson>)
    requires ChainWellFormed(s) && DistinctIds(s) && s != []
    ensures WalkNext(s, Some(s[0].id), |s|) == Ids(s)
    ensures var w := WalkPrev(s, Some(s[|s| - 1].id), |s|);
      |w| == |s| && forall k :: 0 <= k < |s| ==> w[k] == s[|s| - 1 - k].id
  {
    WalkNextFrom(s, 0);
    assert Ids(s)[0..] == Ids(s);
    WalkPrevFrom(s, |s| - 1);
  }

  /**
   * After linking, with distinct ids, lesson `i` names lesson `j` as its
   * successor exactly when lesson `j` names lesson `i` as its predecessor,
   * and that happens exactly when `j` is `i + 1`.
   */
  lemma LinkedPointersAgree(s: seq<Lesson>, i: nat, j: nat)
    requires Unlinked(s) && DistinctIds(s) && i < |s| && j < |s|
    ensures Link(s)[i].nextLessonId == Some(Link(s)[j].id) <==> j == i + 1
    ensures Link(s)[j].prevLessonId == Some(Link(s)[i].id) <==> j == i + 1
  {
  }

  /**
   * A new course's lessons, inserted with null pointers and linked by the
   * corrected linker, form a chain that can be walked end to end.
   */
  lemma NewCourseChain(inputs: seq<LessonInput>, ids: seq<LessonId>)
    requires |ids| == |inputs| && |inputs| > 0
    requires forall i, j :: 0 <= i < j < |ids| ==> ids[i] != ids[j]
    ensures ChainWellFormed(Link(InsertedLessons(inputs, ids)))
    ensures WalkNext(Link(InsertedLessons(inputs, ids)), Some(ids[0]), |ids|) == ids
  {
    var r := Link(InsertedLessons(inputs, ids));
    assert DistinctIds(r);
    ChainTraversal(r);
    assert Ids(r) == ids;
  }
}
