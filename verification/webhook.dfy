/** The payment provider's notification endpoint: authenticates a delivery
    by its signature and routes settlement events to their handlers. */
module StripeWebhook {
  import opened Types
  import opened PaymentService

  /** A verified event: its type and the id of the payment intent it is
      about. */
  datatype Event = Event(eventType: string, objectId: string)

  /** A delivery: the raw body and the signature header, if any. */
  datatype Delivery = Delivery(body: string, signature: Option<string>)

  datatype ResponseBody = Received | ErrorBody(error: string)

  datatype HttpResponse = HttpResponse(status: int, body: ResponseBody)

  datatype Outcome = Outcome(response: HttpResponse, next: Ledger)

  /** The provider's signature check, with the endpoint secret fixed: the
      event a body and signature decode to, or nothing when the signature
      does not verify. It is provider code, so it is a parameter here. */
  type ConstructEvent = (string, string) -> Option<Event>

  /** The store faults seen by whichever handler runs. */
  datatype HandlerFaults = HandlerFaults(payment: StoreFaults, credit: StoreFaults)

  const SucceededEvent := "payment_intent.succeeded"
  const FailedEvent := "payment_intent.payment_failed"

  const Accepted := HttpResponse(200, Received)
  const NoSignature := HttpResponse(400, ErrorBody("No signature found"))
  const BadSignature := HttpResponse(400, ErrorBody("Invalid signature"))

  /** The event a delivery carries, when it has a non-empty signature that
      verifies. */
  function Authenticate(d: Delivery, constructEvent: ConstructEvent): (e: Option<Event>)
    ensures !Provided(d.signature) ==> e.None?
    ensures Provided(d.signature) ==> e == constructEvent(d.body, d.signature.value)
  {
    if Provided(d.signature) then constructEvent(d.body, d.signature.value) else None
  }

  /** Handles one delivery. A handler's failure is only logged: every
      authenticated delivery is answered `received`. */
  function Post(db: Ledger, d: Delivery, constructEvent: ConstructEvent, now: Timestamp,
                faults: HandlerFaults): (r: Outcome)
    // a missing or empty signature: rejected, nothing runs
    ensures !Provided(d.signature) ==> r == Outcome(NoSignature, db)
    // a signature that does not verify: rejected, nothing runs
    ensures Provided(d.signature) && constructEvent(d.body, d.signature.value).None? ==>
      r == Outcome(BadSignature, db)
    // anything authenticated is acknowledged, whatever its handler reports
    ensures r.response == Accepted <==> Authenticate(d, constructEvent).Some?
    ensures r.response != Accepted ==> r.next == db
    // routing: exactly the matching transition on the event's intent id
    ensures Authenticate(d, constructEvent).Some? ==>
      var e := Authenticate(d, constructEvent).value;
      r.next == (if e.eventType == SucceededEvent then
                   HandleSuccessfulPayment(db, e.objectId, now, faults.payment, faults.credit).next
                 else if e.eventType == FailedEvent then
                   HandleFailedPayment(db, e.objectId, now, faults.payment.writeFails).next
                 else db)
  {
    if !Provided(d.signature) then Outcome(NoSignature, db)
    else
      match constructEvent(d.body, d.signature.value)
      case None => Outcome(BadSignature, db)
      case Some(event) =>
        if event.eventType == SucceededEvent then
          Outcome(Accepted, HandleSuccessfulPayment(db, event.objectId, now, faults.payment, faults.credit).next)
        else if event.eventType == FailedEvent then
          Outcome(Accepted, HandleFailedPayment(db, event.objectId, now, faults.payment.writeFails).next)
        else
          Outcome(Accepted, db)
  }

  /** A notification about a failed payment never changes a balance. */
  lemma FailedEventKeepsBalances(db: Ledger, d: Delivery, constructEvent: ConstructEvent, now: Timestamp,
                                 faults: HandlerFaults)
    requires Authenticate(d, constructEvent).Some?
    requires Authenticate(d, constructEvent).value.eventType != SucceededEvent
    ensures Post(db, d, constructEvent, now, faults).next.users == db.users
  {
  }

  /** The provider retries deliveries; replaying one authenticated success
      notification grants the payment's credits twice. */
  lemma ReplayedSuccessGrantsTwice(db: Ledger, d: Delivery, constructEvent: ConstructEvent,
                                   t1: Timestamp, t2: Timestamp)
    requires Authenticate(d, constructEvent).Some?
    requires Authenticate(d, constructEvent).value.eventType == SucceededEvent
    requires Authenticate(d, constructEvent).value.objectId in db.payments
    requires db.payments[Authenticate(d, constructEvent).value.objectId].userId in db.users
    ensures
      var ref := Authenticate(d, constructEvent).value.objectId;
      var p := db.payments[ref];
      var once := Post(db, d, constructEvent, t1, HandlerFaults(NoFaults, NoFaults));
      var twice := Post(once.next, d, constructEvent, t2, HandlerFaults(NoFaults, NoFaults));
      && twice.response == Accepted
      && twice.next.users[p.userId].paidCredits == db.users[p.userId].paidCredits + 2 * p.creditsPurchased
  {
    var ref := Authenticate(d, constructEvent).value.objectId;
    DuplicateSuccessGrantsTwice(db, ref, t1, t2);
  }
}
