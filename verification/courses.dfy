/** `updateCourseDescription`, `updateCourseTitle` and `createCourse`.

    The schemas these actions call (`CourseDescriptionSchema`, and
    `CourseSchema.safeParse` on what is a plain object of schemas) are not
    defined in the schemas file; their verdict is the input predicate
    `accepts`, meant as "the value is non-empty". Validation runs before the
    caller is looked at. An update matches the course by id AND owner; when
    nothing matches the update throws, which the catch-all reports.
    `createCourse` has no catch-all: a failing insert rejects the call.
 */
module CourseActions {
  import opened Db

  /** The one column an update writes, the validated data. */
  datatype Edit = SetTitle(title: string) | SetDescription(description: string)

  function Apply(c: Course, e: Edit): Course {
    match e
    case SetTitle(t) => c.(title := t)
    case SetDescription(d) => c.(description := Some(d))
  }

  /** The course table and the rest of the store agree everywhere except at `courseId`. */
  ghost predicate OnlyCourseChanged(st: Store, st': Store, courseId: Id) {
    && st' == st.(courses := st'.courses)
    && st'.courses.Keys == st.courses.Keys
    && forall k :: k in st.courses && k != courseId ==> st'.courses[k] == st.courses[k]
  }

  /** The shared body of both updates. */
  function Update(st: Store, accepted: bool, edit: Edit, courseId: Id, session: Option<Id>, done: string): Outcome {
    if !accepted then Outcome(Error("Something went wrong!"), st)
    else
      var caller := Caller(st, session);
      if caller.None? then Outcome(Error("Unauthorized"), st)
      else if !Owns(st, caller.value.id, courseId) then Outcome(Error("Something went wrong!"), st)
      else Outcome(Success(done, None), st.(courses := st.courses[courseId := Apply(st.courses[courseId], edit)]))
  }

  function UpdateCourseTitle(st: Store, accepts: string -> bool, title: string, courseId: Id, session: Option<Id>)
    : (o: Outcome)
    ensures !accepts(title) ==> o == Outcome(Error("Something went wrong!"), st)
    ensures accepts(title) && Caller(st, session).None? ==> o == Outcome(Error("Unauthorized"), st)
    // no course with this id owned by the caller: the update throws
    ensures accepts(title) && Caller(st, session).Some? && !Owns(st, Caller(st, session).value.id, courseId) ==>
              o == Outcome(Error("Something went wrong!"), st)
    ensures o.reply.Success? <==> accepts(title) && Caller(st, session).Some? && Owns(st, Caller(st, session).value.id, courseId)
    ensures !o.reply.Success? ==> o.store == st
    ensures o.reply.Success? ==>
              && o.reply == Success("Title updated!", None)
              && OnlyCourseChanged(st, o.store, courseId)
              && o.store.courses[courseId] == st.courses[courseId].(title := title)
    // a course owned by someone else is never modified
    ensures forall k :: k in st.courses && (Caller(st, session).None? || st.courses[k].userId != Caller(st, session).value.id) ==>
              k in o.store.courses && o.store.courses[k] == st.courses[k]
    ensures Wf(st) ==> Wf(o.store)
  {
    Update(st, accepts(title), SetTitle(title), courseId, session, "Title updated!")
  }

  function UpdateCourseDescription(st: Store, accepts: string -> bool, description: string, courseId: Id, session: Option<Id>)
    : (o: Outcome)
    ensures !accepts(description) ==> o == Outcome(Error("Something went wrong!"), st)
    ensures accepts(description) && Caller(st, session).None? ==> o == Outcome(Error("Unauthorized"), st)
    ensures accepts(description) && Caller(st, session).Some? && !Owns(st, Caller(st, session).value.id, courseId) ==>
              o == Outcome(Error("Something went wrong!"), st)
    ensures o.reply.Success? <==> accepts(description) && Caller(st, session).Some? && Owns(st, Caller(st, session).value.id, courseId)
    ensures !o.reply.Success? ==> o.store == st
    ensures o.reply.Success? ==>
              && o.reply == Success("Description updated!", None)
              && OnlyCourseChanged(st, o.store, courseId)
              && o.store.courses[courseId] == st.courses[courseId].(description := Some(description))
    ensures forall k :: k in st.courses && (Caller(st, session).None? || st.courses[k].userId != Caller(st, session).value.id) ==>
              k in o.store.courses && o.store.courses[k] == st.courses[k]
    ensures Wf(st) ==> Wf(o.store)
  {
    Update(st, accepts(description), SetDescription(description), courseId, session, "Description updated!")
  }

  /** A new course owned by the caller, with only its title set. */
  function CreateCourse(st: Store, accepts: string -> bool, title: string, session: Option<Id>, newId: Id, now: int)
    : (o: Outcome)
    ensures !accepts(title) ==> o == Outcome(Error("Something went wrong!"), st)
    ensures accepts(title) && Caller(st, session).None? ==> o == Outcome(Error("Unauthorized"), st)
    // an id the table already holds makes the insert throw, uncaught
    ensures accepts(title) && Caller(st, session).Some? && newId in st.courses ==> o == Outcome(Thrown, st)
    ensures o.reply.Success? <==> accepts(title) && Caller(st, session).Some? && newId !in st.courses
    ensures !o.reply.Success? ==> o.store == st
    ensures o.reply.Success? ==>
              && o.reply == Success("Course Created!", Some(newId))
              && o.store.courses.Keys == st.courses.Keys + {newId}
              && o.store == st.(courses := o.store.courses)
              && (forall k :: k in st.courses ==> o.store.courses[k] == st.courses[k])
              && var c := o.store.courses[newId];
                 && c.userId == Caller(st, session).value.id && c.title == title
                 && c == Course(newId, c.userId, title, None, None, None, None, false, now)
    ensures Wf(st) ==> Wf(o.store)
  {
    if !accepts(title) then Outcome(Error("Something went wrong!"), st)
    else
      var caller := Caller(st, session);
      if caller.None? then Outcome(Error("Unauthorized"), st)
      else if newId in st.courses then Outcome(Thrown, st)
      else
        var course := Course(newId, caller.value.id, title, None, None, None, None, false, now);
        Outcome(Success("Course Created!", Some(newId)), st.(courses := st.courses[newId := course]))
  }

  /** Repeating an update changes nothing more: the second call succeeds
      exactly when the first did and leaves the store as the first left it. */
  lemma UpdateIdempotent(st: Store, accepts: string -> bool, value: string, courseId: Id, session: Option<Id>)
    ensures var o1 := UpdateCourseTitle(st, accepts, value, courseId, session);
            var o2 := UpdateCourseTitle(o1.store, accepts, value, courseId, session);
            o2 == o1
    ensures var o1 := UpdateCourseDescription(st, accepts, value, courseId, session);
            var o2 := UpdateCourseDescription(o1.store, accepts, value, courseId, session);
            o2 == o1
  {
  }
}
