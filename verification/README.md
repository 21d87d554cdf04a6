# Course authoring and checkout rules of a learning-management app

This project models, in Dafny, the server-side business rules of a small
learning-management web application: instructors create courses, chapters and
attachments; learners start a payment checkout for a published course. The
relational store is an immutable value (`Db.Store`): maps of users, courses,
chapters and attachments keyed by id, the set of purchases keyed by
(user, course), and the billing-customer mapping from user id to the billing
provider's customer id. Each server action is a pure function (or, where it
needs to scan a table, a method) from the store and its inputs to a reply and
a new store. The reply is the source's result union: `{error}`,
`{success, id?}` or `{url}`, plus `Thrown` for the one action with no
catch-all.

Modules follow the source files:

- `Db` (db.dfy): entities, the store, its well-formedness (`Wf`: keys agree with
  record ids; foreign keys resolve), the reply union, and the identity guard
  every action repeats (`currentUser()` then `getUserById`).
- `Ordered` (ordered.dfy): `findMany` with `orderBy`, as "every kept key once,
  in rank order".
- `Segments` (segments.dfy): `url.split("/").pop() || ""`.
- `Schemas` (schemas.dfy): the zod object schemas as data and `safeParse` over them.
- `CheckoutAction` (checkout.dfy): `checkout`.
- `ChapterActions` (chapters.dfy): `createChapter`.
- `AttachmentActions` (attachments.dfy): `createAttachment`, `deleteAttachment`.
- `CourseActions` (courses.dfy): `updateCourseDescription`, `updateCourseTitle`, `createCourse`.
- `CourseQueries` (queries.dfy): `getCourses`, `getCourseById`.

Inputs that the source takes from its environment become parameters:

- The session's user id is `session: Option<Id>`. The source's `!user?.id` treats an empty id like a missing one.
- Fresh ids and creation timestamps are `newId` and `now`.
- The app URL is `appUrl`.
- The billing provider's answers are `Billing`. `None` means the call throws.
- A failing read query is `down`.
- The e-mail rule of the schemas is `isEmail`.

Database failures are modelled where the data decides them:

- an update that matches no row;
- a delete of an id that is not stored;
- an insert whose generated id is already taken;
- an insert on a unique column that already holds the value (the billing-customer row of a user who has one).

A database outage is not modelled.

Behaviours of the code a reader might not expect:

- Checkout looks at the purchase before it decides "Not Found" (actions/checkout.ts:35-40). A user who already bought a course gets "Already purchase" even when that course is now missing or unpublished.
- The two course updates have no ownership guard. A course the caller does not own simply matches no row, so the update throws and the reply is "Something went wrong!", not "Unauthorized" (actions/teacher/course.ts:27-41).
- Checkout never records a purchase (actions/checkout.ts:11-95). A second checkout of the same course therefore opens another payment session instead of answering "Already purchase"; only a purchase written elsewhere stops it.
- `deleteAttachment` checks that the caller owns `courseId` but deletes by attachment id alone (actions/teacher/attachment.ts:29-33).

Validation in `createChapter`, the course updates and `createCourse` is an input
predicate `accepts`, meant as "the value is non-empty". The schemas they call
are not usable as defined in schemas/index.ts. `CourseSchema` (schemas/index.ts:7-29) is a plain
object of schemas and has no `safeParse` of its own. `ChapterSchema` and
`CourseDescriptionSchema` are imported but not defined in schemas/index.ts.
The attachment action does use the concrete `AttachmentSchema`. Also, the
description and image schemas of `CourseSchema` report "Title is required",
the title's message (schemas/index.ts:13-22); `Schemas.EmptyDescriptionMessage`
records this.

## Model

| member | source | states |
|---|---|---|
| CheckoutAction.Checkout | actions/checkout.ts:11-95 | Guard order: no id, empty id or unknown user gives "Unauthorized"; an existing purchase gives "Already purchase" whether or not the course exists or is published; otherwise a missing or unpublished course gives "Not Found". None of these touches the store or calls the provider. Existing customer mappings are never changed. A new mapping is written only for a user without one; if the stored user's id already has a row, the insert on that unique column throws and the reply is "Internal Error" after the provider created a customer. When every guard passes and the provider answers, the reply is a redirect to the session url, and a user without a mapping gets one for the new customer. At most one customer is created, before any session, and at most one session is opened. A failed customer creation ends the call with "Internal Error" and no session request. Once a customer id is known, the session for it is requested, whether or not the provider opens it. |
| CheckoutAction.SessionFor | actions/checkout.ts:42-88 | The session is a one-off payment (`mode` "payment") for the given customer: quantity 1 in "USD", named by the course title and described by the course description; metadata names the course and the user. Both return URLs start with the app URL followed by "/courses/" and the course id, then end in "?success=1" or "?canceled=1". |
| CheckoutAction.CheckoutTwice | actions/checkout.ts:26-76 | Two checkouts in a row add at most the one mapping keyed by the caller and record no purchase. Once the first has stored a mapping, the second creates no billing customer. After a first redirect, the second checkout redirects again to a new session rather than answering "Already purchase". |
| CheckoutAction.SessionFailureKeepsCustomer | actions/checkout.ts:65-94 | If the session fails after a new customer was created, the reply is "Internal Error" but the new mapping stays in the store. |
| ChapterActions.LastPosition | actions/teacher/chapters.ts:36-43 | Returns None exactly when the course has no chapters. Otherwise it returns a position some chapter of the course holds and no chapter of the course exceeds. |
| ChapterActions.CreateChapter | actions/teacher/chapters.ts:9-60 | Validation comes before identity, and ownership after identity; each failure leaves the store unchanged. On success exactly one chapter is added, with the given title and course id and the returned id. Its position is the course's maximum position plus 1, or 1 for an empty course, and is above every existing position there. A taken chapter id gives "Something went wrong!". Distinct positions stay distinct, and `Wf` is preserved. |
| AttachmentActions.CreateAttachment | actions/teacher/attachment.ts:44-86 | A missing or empty url is refused before identity is checked. A non-owner gets "Unauthorized" and nothing changes. On success exactly one attachment is added, with the given url and course id, the final segment of the url as its name, and the returned id. A taken id gives "Something went wrong!". `Wf` is preserved. |
| AttachmentActions.DeleteAttachment | actions/teacher/attachment.ts:10-42 | A caller who is not identified, or does not own the course, gets "Unauthorized" and nothing changes. Otherwise exactly the row with that id is removed and every other row is kept. An id that is not stored gives "Something went wrong!". `Wf` is preserved. |
| AttachmentActions.DeleteIgnoresAttachmentCourse | actions/teacher/attachment.ts:21-33 | An owner of one course can delete an attachment of another course. |
| CourseActions.UpdateCourseTitle | actions/teacher/course.ts:44-76 | Validation comes before identity. Only the course matching both the id and the caller changes, and only its title; every other field and row is kept. Courses of other owners are never modified. No owned match gives "Something went wrong!" with no change. |
| CourseActions.UpdateCourseDescription | actions/teacher/course.ts:10-42 | The same as the title update, for the description field. |
| CourseActions.CreateCourse | actions/teacher/course.ts:78-101 | Validation comes before identity. On success exactly one course is added: owned by the caller, with the given title and nothing else set, and its id is returned. A failing insert is not caught (`Thrown`). |
| CourseActions.UpdateIdempotent | actions/teacher/course.ts:27-35 | Repeating either update with the same value yields the same reply and store as doing it once. |
| CourseQueries.GetCourses | data/course.ts:3-18 | Returns exactly the caller's courses: none missing, none extra, each once. They are sorted by creation time, newest first. A failing query returns the empty list. |
| CourseQueries.GetCourseById | data/course.ts:20-42 | Returns the course with that id, or None when there is none or the query fails. Its attachments are exactly the course's, newest first. Its chapters are exactly the course's, by ascending position. |
| CourseQueries.AttachmentsOf | data/course.ts:25-29 | Returns exactly the attachments of the course, each once, newest first. |
| CourseQueries.ChaptersOf | data/course.ts:30-34 | Returns exactly the chapters of the course, each once, by ascending position. |
| Ordered.SortKeys | data/course.ts:5-12 | Returns every key of the filtered table exactly once, in non-decreasing rank. |
| Ordered.InsertByRank | data/course.ts:9-11 | Inserting one key into a rank-sorted key list keeps it sorted and adds exactly that key: the result's multiset is the input's plus that one key. |
| Ordered.InsertKeepsDistinct | data/course.ts:9-11 | Inserting a key that is not yet present keeps the list free of repetition. |
| Segments.Split | actions/teacher/attachment.ts:74 | `split("/")` gives at least one piece, and no piece contains '/'. |
| Segments.JoinSplit | actions/teacher/attachment.ts:74 | Joining the pieces with '/' gives the url back. |
| Segments.LastPieceIsFinal | actions/teacher/attachment.ts:74 | The last piece is the final segment: a '/'-free suffix that reaches back to a '/' or to the start. |
| Segments.FinalSegmentLongest | actions/teacher/attachment.ts:74 | No '/'-free suffix that reaches back to a '/' or to the start is longer than another. |
| Segments.FinalSegmentUnique | actions/teacher/attachment.ts:74 | A url has exactly one final segment. |
| Segments.AttachmentName | actions/teacher/attachment.ts:74 | The name is the final segment of the url. It equals the url when the url has no '/', and it is "" when the url ends in '/'. |
| Segments.AttachmentNameIsFinalSegment | actions/teacher/attachment.ts:74 | A string is the attachment name of a url if and only if it is that url's final segment. |
| Schemas.FieldIssues | schemas/index.ts:3-5 | A field raises no issue exactly when it is present and obeys its rule, and it raises at most one. |
| Schemas.SafeParse | actions/teacher/attachment.ts:49 | Accepted data holds exactly the declared fields that were submitted, with their submitted values; unknown keys are stripped. |
| Schemas.NoIssuesIff | schemas/index.ts:1-50 | An object schema finds no issue if and only if every declared field is satisfied. |
| Schemas.AcceptsIff | schemas/index.ts:1-50 | `safeParse` accepts if and only if every field is satisfied, and every declared field is then in the data. |
| Schemas.ParseAttachment | actions/teacher/attachment.ts:49-53 | Yields a url exactly when the submitted url is present and non-empty, and that url is the submitted one. |
| Schemas.AttachmentSchemaAccepts | schemas/index.ts:3-5 | The attachment is accepted if and only if its url has length at least 1; the data is that url alone. |
| Schemas.NonEmptyFieldAccepts | schemas/index.ts:9-11 | A one-field schema with `min(1)` accepts if and only if the field is present and non-empty. |
| Schemas.CourseSchemasAccept | schemas/index.ts:7-25 | Title, description, imageUrl and categoryId are each accepted if and only if present and non-empty. |
| Schemas.LoginSchemaAccepts | schemas/index.ts:31-38 | Log-in is accepted if and only if the e-mail passes the e-mail rule and the password is non-empty. |
| Schemas.SignUpSchemaAccepts | schemas/index.ts:40-50 | Sign-up is accepted if and only if the username is non-empty, the e-mail passes the e-mail rule and the password is non-empty. |
| Schemas.EmptyDescriptionMessage | schemas/index.ts:13-17 | An empty description is refused with the single issue "Title is required" on the description field. |

## Left out

- CheckoutAction.Checkout: the catch-all turns three modelled failures into "Internal Error". Two are billing-provider failures: customer creation and session creation. The third is the insert of a second billing-customer row for a user id that already has one, which fails on the unique `userId` column. Database outages and identity-lookup failures are not modelled, because how `getUserById` (data/user.ts) handles its own failures is not part of this model.
- CheckoutAction.Checkout: the claim that the session uses the stored mapping holds for well-formed stores (`Wf`). In a store that is not well-formed, the mapping is looked up by the session's id but inserted under the stored user's id (actions/checkout.ts:56-75), so a later checkout may not find it.
- CheckoutAction.SessionFor: the unit amount `Math.round(price * 100)` is floating-point and is left out. The provider's answer when the course has no price is part of `Billing`.
- ChapterActions.CreateChapter, AttachmentActions.CreateAttachment, AttachmentActions.DeleteAttachment, CourseActions.UpdateCourseTitle, CourseActions.UpdateCourseDescription, CourseActions.CreateCourse: a database outage is not modelled. The only failures modelled are those the data decides. The reason is the same as for checkout.
- ChapterActions.CreateChapter, CourseActions.CreateCourse: new rows take `isPublished = false` (and `isFree = false` for chapters) as the table defaults. The database schema is not part of this model.
- The concrete chapter and course-update schemas: they are absent from, or inconsistent with, schemas/index.ts, so validation there is the input predicate `accepts`.
- `coursePrice` (`z.coerce.number()`) and the price column: these are floating-point. The price is carried, never computed on.
- The e-mail rule of `LoginSchema` and `SignUpSchema`: this is the library's pattern, so it is an input predicate.
- Non-string form values: the model takes every submitted value as a string.
- The stripe session's url being null, and the `mode: "payment"` semantics: these belong to the billing provider.
- `revalidatePath` cache invalidation: it is a framework side effect with no effect on the store.
- The race between two concurrent first checkouts of one user: each action is a single atomic step here.
- NextAuth configuration, OAuth providers, password hashing and JWT callbacks (auth.ts), and log-in (actions/login.ts): these depend on library behaviour that is not part of this model.
- Route constants (routes.ts) and the UI components: they hold no business rules.
- Publishing and unpublishing, chapter reordering, progress tracking and recording purchases: the modelled actions and queries do not implement them.
