/** `checkout(courseId)`: start paying for a course.

    The billing provider is outside the model: what it would answer is an
    input (`Billing`), and the calls made to it are part of the output, so
    that "no customer and no session was created" can be stated. The store
    write is the lazily created billing-customer mapping; no purchase is
    ever recorded here.
 */
module CheckoutAction {
  import opened Db

  datatype LineItem = LineItem(quantity: nat, currency: string, name: string, description: Option<string>)

  /** What the payment-completion side needs to reconcile the payment. */
  datatype Metadata = Metadata(courseId: Id, userId: Id)

  datatype Session = Session(
    customer: Id,
    lineItem: LineItem,
    mode: string,
    successUrl: string,
    cancelUrl: string,
    metadata: Metadata)

  datatype BillingCall = CreateCustomer(email: string) | CreateSession(session: Session)

  /** The provider's answers: the customer id it issues and the url of the
      session it opens, None where the call throws. */
  datatype Billing = Billing(customerId: Option<Id>, sessionUrl: Option<string>)

  datatype CheckoutOutcome = CheckoutOutcome(reply: Reply, store: Store, calls: seq<BillingCall>)

  /** The course page a payment returns to. */
  function CoursePage(appUrl: string, courseId: Id, query: string): string {
    appUrl + "/courses/" + courseId + query
  }

  /** `db.course.findUnique({ where: { id: courseId, isPublished: true } })` found a row. */
  predicate Purchasable(st: Store, courseId: Id) {
    courseId in st.courses && st.courses[courseId].isPublished
  }

  /** The session requested for `customer` buying `course` as `user`; the
      unit amount is left out. */
  function SessionFor(customer: Id, course: Course, user: User, appUrl: string): (s: Session)
    ensures s.customer == customer
    ensures s.metadata.courseId == course.id && s.metadata.userId == user.id
    ensures s.lineItem.quantity == 1 && s.lineItem.name == course.title
    // a one-off payment in US dollars, described by the course description
    ensures s.lineItem.currency == "USD" && s.lineItem.description == course.description
    ensures s.mode == "payment"
    ensures var page := appUrl + "/courses/" + course.id;
            && page <= s.successUrl && s.successUrl[|page|..] == "?success=1"
            && page <= s.cancelUrl && s.cancelUrl[|page|..] == "?canceled=1"
  {
    Session(
      customer,
      LineItem(1, "USD", course.title, course.description),
      "payment",
      CoursePage(appUrl, course.id, "?success=1"),
      CoursePage(appUrl, course.id, "?canceled=1"),
      Metadata(course.id, user.id))
  }

  /** Opens the session once a customer id is known. */
  function OpenSession(st: Store, customer: Id, course: Course, user: User, appUrl: string, billing: Billing): CheckoutOutcome {
    var call := CreateSession(SessionFor(customer, course, user, appUrl));
    match billing.sessionUrl
    case None => CheckoutOutcome(Error("Internal Error"), st, [call])
    case Some(url) => CheckoutOutcome(Redirect(url), st, [call])
  }

  function Checkout(st: Store, session: Option<Id>, courseId: Id, appUrl: string, billing: Billing): (out: CheckoutOutcome)
    // identity: no id, an empty id, or an unknown user
    ensures Caller(st, session).None? ==> out == CheckoutOutcome(Error("Unauthorized"), st, [])
    // an existing purchase wins over a missing or unpublished course
    ensures Caller(st, session).Some? && Purchase(session.value, courseId) in st.purchases ==>
              out == CheckoutOutcome(Success("Already purchase", None), st, [])
    ensures Caller(st, session).Some? && Purchase(session.value, courseId) !in st.purchases && !Purchasable(st, courseId) ==>
              out == CheckoutOutcome(Error("Not Found"), st, [])
    // the only write is the customer mapping; existing mappings are kept
    ensures out.store == st.(customers := out.store.customers)
    ensures Wf(st) ==> Wf(out.store)
    ensures forall u :: u in st.customers ==> u in out.store.customers && out.store.customers[u] == st.customers[u]
    ensures out.store.customers != st.customers ==>
              && Caller(st, session).Some?
              && session.value !in st.customers
              && st.users[session.value].id !in st.customers
              && billing.customerId.Some?
              && out.store.customers == st.customers[st.users[session.value].id := billing.customerId.value]
              && |out.calls| >= 1 && out.calls[0] == CreateCustomer(st.users[session.value].email)
    // an existing mapping is reused: no customer is created
    ensures Caller(st, session).Some? && session.value in st.customers ==>
              out.store == st && forall i :: 0 <= i < |out.calls| ==> !out.calls[i].CreateCustomer?
    // the replies the procedure can give
    ensures out.reply in {Error("Unauthorized"), Success("Already purchase", None), Error("Not Found"), Error("Internal Error")}
            || out.reply.Redirect?
    // a failing provider call is reported as an internal error
    ensures out.reply == Error("Internal Error") <==>
              && Caller(st, session).Some?
              && Purchase(session.value, courseId) !in st.purchases
              && Purchasable(st, courseId)
              && (|| (session.value !in st.customers && (billing.customerId.None? || st.users[session.value].id in st.customers))
                  || billing.sessionUrl.None?)
    // the mapping row is unique per user: inserting a second one for the
    // stored user's id throws, after the provider created the customer
    ensures Caller(st, session).Some? && Purchase(session.value, courseId) !in st.purchases && Purchasable(st, courseId)
            && session.value !in st.customers && st.users[session.value].id in st.customers ==>
              out == CheckoutOutcome(Error("Internal Error"), st, [CreateCustomer(st.users[session.value].email)])
    // a failed customer creation throws before any session is requested
    ensures Caller(st, session).Some? && Purchase(session.value, courseId) !in st.purchases && Purchasable(st, courseId)
            && session.value !in st.customers && billing.customerId.None? ==>
              out == CheckoutOutcome(Error("Internal Error"), st, [CreateCustomer(st.users[session.value].email)])
    // once a customer id is known the session is requested, whether or not
    // the provider then opens it: for the stored or the new customer
    ensures && Caller(st, session).Some? && Purchase(session.value, courseId) !in st.purchases && Purchasable(st, courseId)
            && (session.value in st.customers || (billing.customerId.Some? && st.users[session.value].id !in st.customers)) ==>
              var customer := if session.value in st.customers then st.customers[session.value] else billing.customerId.value;
              && |out.calls| == (if session.value in st.customers then 1 else 2)
              && out.calls[|out.calls| - 1] == CreateSession(SessionFor(customer, st.courses[courseId], st.users[session.value], appUrl))
    // once every guard passes and the provider answers, checkout redirects
    ensures && Caller(st, session).Some? && Purchase(session.value, courseId) !in st.purchases && Purchasable(st, courseId)
            && billing.sessionUrl.Some?
            && (session.value in st.customers || (billing.customerId.Some? && st.users[session.value].id !in st.customers)) ==>
              out.reply == Redirect(billing.sessionUrl.value)
    // a user without a mapping gets one for the customer the provider created
    ensures && Caller(st, session).Some? && Purchase(session.value, courseId) !in st.purchases && Purchasable(st, courseId)
            && session.value !in st.customers && billing.customerId.Some? && st.users[session.value].id !in st.customers ==>
              out.store.customers == st.customers[st.users[session.value].id := billing.customerId.value]
    // at most one customer, created first, and at most one session
    ensures |out.calls| <= 2
    ensures forall i :: 0 < i < |out.calls| ==> out.calls[i].CreateSession?
    ensures |out.calls| == 2 ==> out.calls[0].CreateCustomer?
    // the success path: a session for the mapped customer, this course and this user
    ensures out.reply.Redirect? ==>
              && Caller(st, session).Some?
              && Purchase(session.value, courseId) !in st.purchases
              && Purchasable(st, courseId)
              && billing.sessionUrl == Some(out.reply.url)
              && |out.calls| >= 1
              && out.calls[|out.calls| - 1].CreateSession?
              && var s := out.calls[|out.calls| - 1].session;
                 && s.metadata == Metadata(st.courses[courseId].id, st.users[session.value].id)
                 && (session.value in st.customers ==> s.customer == st.customers[session.value])
                 && (Wf(st) ==> && session.value in out.store.customers
                                && s == SessionFor(out.store.customers[session.value], st.courses[courseId], st.users[session.value], appUrl))
  {
    var caller := Caller(st, session);
    if caller.None? then CheckoutOutcome(Error("Unauthorized"), st, [])
    else
      var userId := session.value;
      var dbUser := caller.value;
      if Purchase(userId, courseId) in st.purchases then CheckoutOutcome(Success("Already purchase", None), st, [])
      else if !Purchasable(st, courseId) then CheckoutOutcome(Error("Not Found"), st, [])
      else
        var course := st.courses[courseId];
        if userId in st.customers then
          OpenSession(st, st.customers[userId], course, dbUser, appUrl, billing)
        else
          var call := CreateCustomer(dbUser.email);
          match billing.customerId
          case None => CheckoutOutcome(Error("Internal Error"), st, [call])
          case Some(customer) =>
            // the insert on the unique user column throws when that user already has a row
            if dbUser.id in st.customers then CheckoutOutcome(Error("Internal Error"), st, [call])
            else
              var st' := st.(customers := st.customers[dbUser.id := customer]);
              var started := OpenSession(st', customer, course, dbUser, appUrl, billing);
              started.(calls := [call] + started.calls)
  }

  /** Checking out twice for the same user and course adds at most the one
      mapping keyed by that user and records no purchase; once the first call
      has stored a mapping, the second creates no customer, and a second
      redirect follows the first. */
  lemma CheckoutTwice(st: Store, session: Option<Id>, courseId: Id, appUrl: string, first: Billing, second: Billing)
    requires Wf(st)
    ensures var o1 := Checkout(st, session, courseId, appUrl, first);
            var o2 := Checkout(o1.store, session, courseId, appUrl, second);
            && o2.store.purchases == st.purchases
            && (session.Some? ==> o2.store.customers.Keys <= st.customers.Keys + {session.value})
            && (session.None? ==> o2.store == st)
            && (o1.store.customers != st.customers ==>
                  forall i :: 0 <= i < |o2.calls| ==> !o2.calls[i].CreateCustomer?)
            // no purchase was recorded, so a second session is opened
            && (o1.reply.Redirect? && second.sessionUrl.Some? ==> o2.reply == Redirect(second.sessionUrl.value))
  {
  }

  /** The mapping is not rolled back when the session cannot be opened
      after a customer was created: the reply is an internal error, yet the
      store keeps the new mapping. */
  lemma SessionFailureKeepsCustomer(st: Store, session: Option<Id>, courseId: Id, appUrl: string, customer: Id)
    requires Wf(st)
    requires Caller(st, session).Some? && session.value !in st.customers
    requires Purchase(session.value, courseId) !in st.purchases && Purchasable(st, courseId)
    ensures var out := Checkout(st, session, courseId, appUrl, Billing(Some(customer), None));
            && out.reply == Error("Internal Error")
            && out.store.customers == st.customers[session.value := customer]
            && |out.calls| == 2
  {
  }
}
