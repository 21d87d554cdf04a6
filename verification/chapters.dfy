/** `createChapter(values, courseId)`: append a chapter to a course the
    caller owns. The new chapter goes one past the highest position in the
    course, or to position 1 in a course without chapters.

    The chapter schema is not part of this model; its verdict on the title
    is the input predicate `accepts`, meant as "the title is non-empty".
    Chapters are created unpublished and not free, the defaults the model
    assumes for the table.
 */
module ChapterActions {
  import opened Db
  import Ordered

  predicate InCourse(chapters: map<Id, Chapter>, courseId: Id, k: Id) {
    k in chapters && chapters[k].courseId == courseId
  }

  /** `p` is the highest position among the course's chapters. */
  ghost predicate IsLastPosition(chapters: map<Id, Chapter>, courseId: Id, p: int) {
    && (exists k :: InCourse(chapters, courseId, k) && chapters[k].position == p)
    && (forall k :: InCourse(chapters, courseId, k) ==> chapters[k].position <= p)
  }

  /** No two chapters of the course share a position. */
  ghost predicate DistinctPositions(chapters: map<Id, Chapter>, courseId: Id) {
    forall a, b :: InCourse(chapters, courseId, a) && InCourse(chapters, courseId, b) && a != b ==>
      chapters[a].position != chapters[b].position
  }

  /** `db.chapter.findFirst({ where: { courseId }, orderBy: { position: "desc" } })`,
      reduced to the position found. */
  method LastPosition(chapters: map<Id, Chapter>, courseId: Id) returns (last: Option<int>)
    ensures last.None? <==> forall k :: !InCourse(chapters, courseId, k)
    ensures last.Some? ==> IsLastPosition(chapters, courseId, last.value)
  {
    var rank := map k | k in chapters && chapters[k].courseId == courseId :: -chapters[k].position;
    var ids := Ordered.SortKeys(rank);
    if ids == [] {
      last := None;
      assert forall k :: InCourse(chapters, courseId, k) ==> k in rank;
    } else {
      last := Some(chapters[ids[0]].position);
      assert ids[0] in rank;
      forall k | InCourse(chapters, courseId, k) ensures chapters[k].position <= last.value {
        assert k in rank;
        var j :| 0 <= j < |ids| && ids[j] == k;
        if j > 0 {
          assert rank[ids[0]] <= rank[ids[j]];
        }
      }
    }
  }

  method CreateChapter(st: Store, accepts: string -> bool, title: string, courseId: Id, session: Option<Id>, newId: Id)
    returns (o: Outcome)
    // validation runs first, then identity, then ownership
    ensures !accepts(title) ==> o == Outcome(Error("Something went wrong!"), st)
    ensures accepts(title) && Caller(st, session).None? ==> o == Outcome(Error("Unauthorized"), st)
    ensures accepts(title) && Caller(st, session).Some? && !Owns(st, Caller(st, session).value.id, courseId) ==>
              o == Outcome(Error("Unauthorized"), st)
    // an id the table already holds makes the insert throw
    ensures o.reply.Success? <==>
              accepts(title) && Caller(st, session).Some? && Owns(st, Caller(st, session).value.id, courseId) && newId !in st.chapters
    ensures accepts(title) && Caller(st, session).Some? && Owns(st, Caller(st, session).value.id, courseId) && newId in st.chapters ==>
              o == Outcome(Error("Something went wrong!"), st)
    ensures !o.reply.Success? ==> o.store == st && o.reply.Error?
    ensures o.reply.Success? ==>
              && o.reply == Success("Chapter created", Some(newId))
              && newId in o.store.chapters
              && var c := o.store.chapters[newId];
                 // only the new row is added, with the given title and course
                 && o.store == st.(chapters := st.chapters[newId := c])
                 && c == Chapter(newId, courseId, title, None, None, c.position, false, false)
                 // max + 1, or 1 for a course without chapters
                 && (forall k :: InCourse(st.chapters, courseId, k) ==> st.chapters[k].position < c.position)
                 && ((forall k :: !InCourse(st.chapters, courseId, k)) ==> c.position == 1)
                 && ((exists k :: InCourse(st.chapters, courseId, k)) ==> IsLastPosition(st.chapters, courseId, c.position - 1))
    ensures o.reply.Success? && DistinctPositions(st.chapters, courseId) ==> DistinctPositions(o.store.chapters, courseId)
    ensures Wf(st) ==> Wf(o.store)
  {
    if !accepts(title) {
      return Outcome(Error("Something went wrong!"), st);
    }
    var caller := Caller(st, session);
    if caller.None? {
      return Outcome(Error("Unauthorized"), st);
    }
    var dbUser := caller.value;
    if !Owns(st, dbUser.id, courseId) {
      return Outcome(Error("Unauthorized"), st);
    }
    var last := LastPosition(st.chapters, courseId);
    var position := if last.Some? then last.value + 1 else 1;
    if newId in st.chapters {
      return Outcome(Error("Something went wrong!"), st);
    }
    var chapter := Chapter(newId, courseId, title, None, None, position, false, false);
    o := Outcome(Success("Chapter created", Some(newId)), st.(chapters := st.chapters[newId := chapter]));
  }
}
