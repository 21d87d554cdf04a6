/** The relational store behind the server actions, as one immutable value.

    Every table is a map keyed by its primary key, except purchases, whose
    key is the composite (userId, courseId), and the billing-customer table,
    which maps a user id to the billing provider's customer id. The result
    union every action returns and the identity guard every action repeats
    live here too, so that each action module only adds its own logic.
 */
module Db {

  datatype Option<+T> = None | Some(value: T)

  /** Primary keys are strings generated by the database. */
  type Id = string

  datatype User = User(id: Id, email: string)

  /** `price` is a floating-point column in the source; the model only carries it. */
  datatype Course = Course(
    id: Id,
    userId: Id,
    title: string,
    description: Option<string>,
    imageUrl: Option<string>,
    price: Option<real>,
    categoryId: Option<Id>,
    isPublished: bool,
    createdAt: int)

  datatype Chapter = Chapter(
    id: Id,
    courseId: Id,
    title: string,
    description: Option<string>,
    videoUrl: Option<string>,
    position: int,
    isPublished: bool,
    isFree: bool)

  datatype Attachment = Attachment(id: Id, courseId: Id, name: string, url: string, createdAt: int)

  datatype Purchase = Purchase(userId: Id, courseId: Id)

  datatype Store = Store(
    users: map<Id, User>,
    courses: map<Id, Course>,
    chapters: map<Id, Chapter>,
    attachments: map<Id, Attachment>,
    purchases: set<Purchase>,
    customers: map<Id, Id>)

  /** Keys agree with the records' own ids and every foreign key names a stored row. */
  predicate Wf(st: Store) {
    && (forall k :: k in st.users ==> st.users[k].id == k)
    && (forall k :: k in st.courses ==> st.courses[k].id == k && st.courses[k].userId in st.users)
    && (forall k :: k in st.chapters ==> st.chapters[k].id == k && st.chapters[k].courseId in st.courses)
    && (forall k :: k in st.attachments ==> st.attachments[k].id == k && st.attachments[k].courseId in st.courses)
    && (forall p :: p in st.purchases ==> p.userId in st.users && p.courseId in st.courses)
    && (forall k :: k in st.customers ==> k in st.users)
  }

  /** The discriminated union every action returns. `Thrown` is a rejected
      promise: only an action without a catch-all can produce it. */
  datatype Reply =
    | Error(message: string)
    | Success(message: string, id: Option<Id>)
    | Redirect(url: string)
    | Thrown

  datatype Outcome = Outcome(reply: Reply, store: Store)

  /** `currentUser()` then `getUserById(user.id)`: the stored record of the
      caller, or None when the session has no id, an empty id (falsy in the
      source), or an id with no stored user. */
  function Caller(st: Store, session: Option<Id>): Option<User> {
    if session.None? || session.value == "" || session.value !in st.users then None
    else Some(st.users[session.value])
  }

  /** `db.course.findUnique({ where: { id: courseId, userId } })` found a row. */
  predicate Owns(st: Store, userId: Id, courseId: Id) {
    courseId in st.courses && st.courses[courseId].userId == userId
  }
}
