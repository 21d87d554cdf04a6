/** `getCourses(userId)` and `getCourseById(id)`: filtered, ordered reads.
    `down` stands for a database call that throws, which both reads catch.
 */
module CourseQueries {
  import opened Db
  import Ordered

  /** A course with its related rows, as `include` returns it. */
  datatype CourseDetail = CourseDetail(course: Course, attachments: seq<Attachment>, chapters: seq<Chapter>)

  /** The owner's courses, newest first; the empty list when the query throws. */
  method GetCourses(st: Store, userId: Id, down: bool) returns (r: seq<Course>)
    ensures down ==> r == []
    // none extra
    ensures forall i :: 0 <= i < |r| ==> r[i].userId == userId && r[i] in st.courses.Values
    // none missing
    ensures !down ==> forall k :: k in st.courses && st.courses[k].userId == userId ==> st.courses[k] in r
    // each course once
    ensures Wf(st) ==> forall i, j :: 0 <= i < j < |r| ==> r[i].id != r[j].id
    // newest first
    ensures forall i, j :: 0 <= i < j < |r| ==> r[i].createdAt >= r[j].createdAt
  {
    if down {
      return [];
    }
    var rank := map k | k in st.courses && st.courses[k].userId == userId :: -st.courses[k].createdAt;
    var ids := Ordered.SortKeys(rank);
    r := seq(|ids|, i requires 0 <= i < |ids| => st.courses[ids[i]]);
    forall i | 0 <= i < |r| ensures r[i].userId == userId && r[i] in st.courses.Values {
      assert ids[i] in rank;
    }
    forall k | k in st.courses && st.courses[k].userId == userId ensures st.courses[k] in r {
      assert k in rank;
      var j :| 0 <= j < |ids| && ids[j] == k;
      assert r[j] == st.courses[k];
    }
  }

  /** The course with this id and its attachments (newest first) and
      chapters (by ascending position); None when there is no such course
      or the query throws. */
  method GetCourseById(st: Store, id: Id, down: bool) returns (r: Option<CourseDetail>)
    ensures r.None? <==> down || id !in st.courses
    ensures r.Some? ==> r.value.course == st.courses[id]
    // attachments: exactly the course's, newest first
    ensures r.Some? ==>
              var a := r.value.attachments;
              && (forall i :: 0 <= i < |a| ==> a[i].courseId == st.courses[id].id && a[i] in st.attachments.Values)
              && (forall k :: k in st.attachments && st.attachments[k].courseId == st.courses[id].id ==> st.attachments[k] in a)
              && (forall i, j :: 0 <= i < j < |a| ==> a[i].createdAt >= a[j].createdAt)
              && (Wf(st) ==> forall i, j :: 0 <= i < j < |a| ==> a[i].id != a[j].id)
    // chapters: exactly the course's, by ascending position
    ensures r.Some? ==>
              var c := r.value.chapters;
              && (forall i :: 0 <= i < |c| ==> c[i].courseId == st.courses[id].id && c[i] in st.chapters.Values)
              && (forall k :: k in st.chapters && st.chapters[k].courseId == st.courses[id].id ==> st.chapters[k] in c)
              && (forall i, j :: 0 <= i < j < |c| ==> c[i].position <= c[j].position)
              && (Wf(st) ==> forall i, j :: 0 <= i < j < |c| ==> c[i].id != c[j].id)
  {
    if down || id !in st.courses {
      return None;
    }
    var course := st.courses[id];
    var attachments := AttachmentsOf(st, course.id);
    var chapters := ChaptersOf(st, course.id);
    r := Some(CourseDetail(course, attachments, chapters));
  }

  /** The attachments of `courseId`, newest first. */
  method AttachmentsOf(st: Store, courseId: Id) returns (a: seq<Attachment>)
    ensures forall i :: 0 <= i < |a| ==> a[i].courseId == courseId && a[i] in st.attachments.Values
    ensures forall k :: k in st.attachments && st.attachments[k].courseId == courseId ==> st.attachments[k] in a
    ensures forall i, j :: 0 <= i < j < |a| ==> a[i].createdAt >= a[j].createdAt
    ensures Wf(st) ==> forall i, j :: 0 <= i < j < |a| ==> a[i].id != a[j].id
  {
    var rank := map k | k in st.attachments && st.attachments[k].courseId == courseId :: -st.attachments[k].createdAt;
    var ids := Ordered.SortKeys(rank);
    a := seq(|ids|, i requires 0 <= i < |ids| => st.attachments[ids[i]]);
    forall i | 0 <= i < |a| ensures a[i].courseId == courseId && a[i] in st.attachments.Values {
      assert ids[i] in rank;
    }
    forall k | k in st.attachments && st.attachments[k].courseId == courseId ensures st.attachments[k] in a {
      assert k in rank;
      var j :| 0 <= j < |ids| && ids[j] == k;
      assert a[j] == st.attachments[k];
    }
  }

  /** The chapters of `courseId`, by ascending position. */
  method ChaptersOf(st: Store, courseId: Id) returns (c: seq<Chapter>)
    ensures forall i :: 0 <= i < |c| ==> c[i].courseId == courseId && c[i] in st.chapters.Values
    ensures forall k :: k in st.chapters && st.chapters[k].courseId == courseId ==> st.chapters[k] in c
    ensures forall i, j :: 0 <= i < j < |c| ==> c[i].position <= c[j].position
    ensures Wf(st) ==> forall i, j :: 0 <= i < j < |c| ==> c[i].id != c[j].id
  {
    var rank := map k | k in st.chapters && st.chapters[k].courseId == courseId :: st.chapters[k].position;
    var ids := Ordered.SortKeys(rank);
    c := seq(|ids|, i requires 0 <= i < |ids| => st.chapters[ids[i]]);
    forall i | 0 <= i < |c| ensures c[i].courseId == courseId && c[i] in st.chapters.Values {
      assert ids[i] in rank;
    }
    forall k | k in st.chapters && st.chapters[k].courseId == courseId ensures st.chapters[k] in c {
      assert k in rank;
      var j :| 0 <= j < |ids| && ids[j] == k;
      assert c[j] == st.chapters[k];
    }
  }
}
