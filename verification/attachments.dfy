/** `createAttachment(values, courseId)` and `deleteAttachment(attachmentId, courseId)`.

    Both check the caller's identity and ownership of `courseId`. Creation
    validates the submitted object with the attachment schema first and
    names the attachment after the last segment of its url. Deletion is by
    attachment id alone: ownership of `courseId` is checked, but not that
    the attachment belongs to that course.
 */
module AttachmentActions {
  import opened Db
  import Schemas
  import Segments

  function CreateAttachment(st: Store, values: Schemas.Values, courseId: Id, session: Option<Id>, newId: Id, now: int)
    : (o: Outcome)
    // an empty or missing url is refused before the caller is looked at
    ensures !("url" in values && |values["url"]| >= 1) ==> o == Outcome(Error("Something went wrong!"), st)
    ensures Schemas.AttachmentAccepts(values) && Caller(st, session).None? ==> o == Outcome(Error("Unauthorized"), st)
    ensures Schemas.AttachmentAccepts(values) && Caller(st, session).Some? && !Owns(st, Caller(st, session).value.id, courseId) ==>
              o == Outcome(Error("Unauthorized"), st)
    // an id the table already holds makes the insert throw
    ensures o.reply.Success? <==>
              && Schemas.AttachmentAccepts(values)
              && Caller(st, session).Some? && Owns(st, Caller(st, session).value.id, courseId)
              && newId !in st.attachments
    ensures Schemas.AttachmentAccepts(values) && Caller(st, session).Some? && Owns(st, Caller(st, session).value.id, courseId)
            && newId in st.attachments ==>
              o == Outcome(Error("Something went wrong!"), st)
    ensures !o.reply.Success? ==> o.store == st && o.reply.Error?
    ensures o.reply.Success? ==>
              && o.reply == Success("Attachment Created!", Some(newId))
              && "url" in values
              && var url := values["url"];
                 && o.store == st.(attachments := st.attachments[newId := Attachment(newId, courseId, Segments.AttachmentName(url), url, now)])
                 && Segments.FinalSegment(o.store.attachments[newId].name, url)
    ensures Wf(st) ==> Wf(o.store)
  {
    var parsed := Schemas.ParseAttachment(values);
    if parsed.None? then Outcome(Error("Something went wrong!"), st)
    else
      var caller := Caller(st, session);
      if caller.None? then Outcome(Error("Unauthorized"), st)
      else if !Owns(st, caller.value.id, courseId) then Outcome(Error("Unauthorized"), st)
      else if newId in st.attachments then Outcome(Error("Something went wrong!"), st)
      else
        var url := parsed.value;
        var attachment := Attachment(newId, courseId, Segments.AttachmentName(url), url, now);
        Outcome(Success("Attachment Created!", Some(newId)), st.(attachments := st.attachments[newId := attachment]))
  }

  function DeleteAttachment(st: Store, attachmentId: Id, courseId: Id, session: Option<Id>): (o: Outcome)
    ensures Caller(st, session).None? ==> o == Outcome(Error("Unauthorized"), st)
    ensures Caller(st, session).Some? && !Owns(st, Caller(st, session).value.id, courseId) ==>
              o == Outcome(Error("Unauthorized"), st)
    // deleting an id that is not stored throws
    ensures o.reply.Success? <==>
              Caller(st, session).Some? && Owns(st, Caller(st, session).value.id, courseId) && attachmentId in st.attachments
    ensures Caller(st, session).Some? && Owns(st, Caller(st, session).value.id, courseId) && attachmentId !in st.attachments ==>
              o == Outcome(Error("Something went wrong!"), st)
    ensures !o.reply.Success? ==> o.store == st && o.reply.Error?
    // exactly that row goes, whichever course it belongs to
    ensures o.reply.Success? ==>
              && o.reply == Success("Attachment Deleted!", None)
              && o.store.attachments.Keys == st.attachments.Keys - {attachmentId}
              && (forall k :: k in o.store.attachments ==> o.store.attachments[k] == st.attachments[k])
              && o.store == st.(attachments := o.store.attachments)
    ensures Wf(st) ==> Wf(o.store)
  {
    var caller := Caller(st, session);
    if caller.None? then Outcome(Error("Unauthorized"), st)
    else if !Owns(st, caller.value.id, courseId) then Outcome(Error("Unauthorized"), st)
    else if attachmentId !in st.attachments then Outcome(Error("Something went wrong!"), st)
    else Outcome(Success("Attachment Deleted!", None), st.(attachments := st.attachments - {attachmentId}))
  }

  /** Deleting through a course the caller owns can remove an attachment of
      another course: the source does not tie the two ids together. */
  lemma DeleteIgnoresAttachmentCourse(st: Store, attachmentId: Id, courseId: Id, session: Option<Id>)
    requires Caller(st, session).Some? && Owns(st, Caller(st, session).value.id, courseId)
    requires attachmentId in st.attachments && st.attachments[attachmentId].courseId != courseId
    ensures DeleteAttachment(st, attachmentId, courseId, session).reply.Success?
    ensures attachmentId !in DeleteAttachment(st, attachmentId, courseId, session).store.attachments
  {
  }
}
