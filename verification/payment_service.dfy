/** Purchases and their settlement: the `payments` table, the intents held by
    the payment provider, and the handlers the provider's notifications
    drive. */
module PaymentService {
  import opened Types
  import opened Stripe
  import opened Sorting
  import opened UserService

  /** The `payments` table, keyed by the provider's payment-intent reference
      (`stripe_payment_intent_id`), the column every settlement looks up. */
  type Payments = map<string, PaymentRow>

  /** A payment intent as the provider records it. */
  datatype ProviderIntent = ProviderIntent(
    amount: int,
    currency: string,
    userId: UserId,
    packageId: string,
    credits: int,
    description: string)

  /** Everything the purchase path reads or writes: the accounts, the
      payment records, and the provider's intents keyed by reference. */
  datatype Ledger = Ledger(users: Users, payments: Payments, intents: map<string, ProviderIntent>)

  /** What the provider answers when asked to create an intent: a fresh
      reference with its client secret, or an error. */
  datatype ProviderReply = Created(intentId: string, clientSecret: string) | ProviderError

  datatype IntentHandle = IntentHandle(clientSecret: string, paymentIntentId: string)

  const Currency := "usd"
  const PaymentNotFound := "Payment not found"
  const StatusUpdateFailed := "Failed to update payment status"

  /** Every payment row is filed under its own provider reference. */
  predicate PaymentsWf(payments: Payments)
  {
    forall ref :: ref in payments ==> payments[ref].stripePaymentIntentId == ref
  }

  /** `next` is `payments` with the status of `ref` set to `status` (and its
      update stamp refreshed); nothing else differs. */
  predicate OnlyStatusChanged(payments: Payments, next: Payments, ref: string, status: PaymentStatus)
  {
    && ref in payments
    && next.Keys == payments.Keys
    && next[ref] == payments[ref].(status := status, updatedAt := next[ref].updatedAt)
    && forall k :: k in payments && k != ref ==> next[k] == payments[k]
  }

  /** Starts a purchase: resolves the package, has the provider create an
      intent for its price, and records a pending payment for it. The
      `payments.user_id` foreign key makes the insert fail for an unknown
      account. */
  function CreatePaymentIntent(db: Ledger, userId: UserId, packageId: string, reply: ProviderReply,
                               rowId: string, now: Timestamp, insertFails: bool): (r: Step<IntentHandle, Ledger>)
    requires reply.Created? ==> reply.intentId !in db.intents && reply.intentId !in db.payments
    requires forall ref :: ref in db.payments ==> db.payments[ref].id != rowId
    ensures r.next.users == db.users
    ensures ResolvePackageId(packageId).None? && !InheritedName(packageId) ==>
      r == Step(Failure("Invalid credit package"), db)
    // an inherited name passes the guard, then reading its credits throws
    // before the provider is called
    ensures InheritedName(packageId) ==> r == Step(Failure("Failed to create payment intent"), db)
    ensures ResolvePackageId(packageId).Some? && reply.ProviderError? ==>
      r == Step(Failure("Failed to create payment intent"), db)
    ensures ResolvePackageId(packageId).Some? && reply.Created? ==>
      var pkg := Package(ResolvePackageId(packageId).value);
      var ref := reply.intentId;
      // the provider holds an intent for the package's price, whatever the store does next
      && r.next.intents == db.intents[ref := ProviderIntent(pkg.price, Currency, userId, packageId, pkg.credits,
                                                            pkg.name + " - " + pkg.description)]
      && (if insertFails || userId !in db.users then
            r.response == Failure("Failed to record payment") && r.next.payments == db.payments
          else
            && r.response == Success(IntentHandle(reply.clientSecret, ref))
            && r.next.payments.Keys == db.payments.Keys + {ref}
            && (forall k :: k in db.payments ==> r.next.payments[k] == db.payments[k])
            && r.next.payments[ref].status == Pending
            && r.next.payments[ref].amount == pkg.price
            && r.next.payments[ref].creditsPurchased == pkg.credits
            && r.next.payments[ref].currency == Currency
            && r.next.payments[ref].stripePaymentIntentId == ref
            && r.next.payments[ref].userId == userId
            && r.next.payments[ref].id == rowId)
  {
    match ResolvePackageId(packageId)
    case None =>
      if InheritedName(packageId) then Step(Failure("Failed to create payment intent"), db)
      else Step(Failure("Invalid credit package"), db)
    case Some(pid) =>
      var pkg := Package(pid);
      match reply
      case ProviderError => Step(Failure("Failed to create payment intent"), db)
      case Created(ref, secret) =>
        var intent := ProviderIntent(pkg.price, Currency, userId, packageId, pkg.credits,
                                     pkg.name + " - " + pkg.description);
        var withIntent := db.(intents := db.intents[ref := intent]);
        var row := PaymentRow(rowId, userId, ref, pkg.price, Currency, pkg.credits, Pending, now, now);
        if insertFails || userId !in db.users then Step(Failure("Failed to record payment"), withIntent)
        else Step(Success(IntentHandle(secret, ref)), withIntent.(payments := db.payments[ref := row]))
  }

  /** The success notification handler: marks the payment `completed`, then
      adds its credits to the owner's balance. There is no check of the
      payment's prior status, and a failed credit step leaves the payment
      `completed`. `paymentFaults` are the payment read and status write;
      `creditFaults` the account read and balance write. */
  function HandleSuccessfulPayment(db: Ledger, ref: string, now: Timestamp,
                                   paymentFaults: StoreFaults, creditFaults: StoreFaults): (r: Step<(), Ledger>)
    ensures r.next.intents == db.intents
    ensures (ref !in db.payments || paymentFaults.readFails) ==> r == Step(Failure(PaymentNotFound), db)
    ensures ref in db.payments && !paymentFaults.readFails && paymentFaults.writeFails ==>
      r == Step(Failure(StatusUpdateFailed), db)
    ensures ref in db.payments && !paymentFaults.readFails && !paymentFaults.writeFails ==>
      var p := db.payments[ref];
      // the status is written first and stays written
      && OnlyStatusChanged(db.payments, r.next.payments, ref, Completed)
      && (if p.userId in db.users && !creditFaults.readFails && !creditFaults.writeFails then
            && r.response == Success(())
            && OnlyBalanceChanged(db.users, r.next.users, p.userId,
                                  db.users[p.userId].paidCredits + p.creditsPurchased)
          else
            r.response == Failure("Failed to add credits to user account") && r.next.users == db.users)
  {
    if paymentFaults.readFails || ref !in db.payments then Step(Failure(PaymentNotFound), db)
    else if paymentFaults.writeFails then Step(Failure(StatusUpdateFailed), db)
    else
      var payment := db.payments[ref];
      var marked := db.(payments := db.payments[ref := payment.(status := Completed, updatedAt := now)]);
      var credited := UpdateUserCredits(marked.users, payment.userId, payment.creditsPurchased, now, creditFaults);
      if credited.response.Failure? then Step(Failure("Failed to add credits to user account"), marked)
      else Step(Success(()), marked.(users := credited.next))
  }

  /** The failure notification handler: marks every payment with this
      reference `failed`. It reads nothing first, so an unknown reference is a
      successful no-op, and it never touches a balance. */
  function HandleFailedPayment(db: Ledger, ref: string, now: Timestamp, writeFails: bool): (r: Step<(), Ledger>)
    ensures r.next.users == db.users && r.next.intents == db.intents
    ensures writeFails ==> r == Step(Failure(StatusUpdateFailed), db)
    ensures !writeFails ==> r.response == Success(())
    ensures !writeFails && ref in db.payments ==> OnlyStatusChanged(db.payments, r.next.payments, ref, Failed)
    ensures ref !in db.payments ==> r.next == db
  {
    if writeFails then Step(Failure(StatusUpdateFailed), db)
    else if ref in db.payments then
      Step(Success(()), db.(payments := db.payments[ref := db.payments[ref].(status := Failed, updatedAt := now)]))
    else Step(Success(()), db)
  }

  function CreatedAt(p: PaymentRow): int
  {
    p.createdAt
  }

  /** The rows among `keys` that belong to `userId`. */
  function RowsOf(payments: Payments, keys: set<string>, userId: UserId): set<PaymentRow>
  {
    set k | k in keys && k in payments && payments[k].userId == userId :: payments[k]
  }

  /** A user's payment history: each of the user's payments exactly once,
      newest first. */
  method GetUserPaymentHistory(payments: Payments, userId: UserId, readFails: bool)
    returns (r: ApiResponse<seq<PaymentRow>>)
    requires PaymentsWf(payments)
    ensures r.Failure? <==> readFails
    ensures r.Failure? ==> r.error == "Failed to get payment history"
    ensures r.Success? ==> multiset(r.data) == multiset(RowsOf(payments, payments.Keys, userId))
    ensures r.Success? ==> SortedDesc(r.data, CreatedAt)
  {
    if readFails {
      return Failure("Failed to get payment history");
    }
    var remaining := payments.Keys;
    var found: seq<PaymentRow> := [];
    while remaining != {}
      invariant remaining <= payments.Keys
      invariant multiset(found) == multiset(RowsOf(payments, payments.Keys - remaining, userId))
      decreases |remaining|
    {
      var k :| k in remaining;
      ghost var before := RowsOf(payments, payments.Keys - remaining, userId);
      remaining := remaining - {k};
      if payments[k].userId == userId {
        assert payments[k] !in before;
        assert RowsOf(payments, payments.Keys - remaining, userId) == before + {payments[k]};
        found := found + [payments[k]];
      } else {
        assert RowsOf(payments, payments.Keys - remaining, userId) == before;
      }
    }
    assert payments.Keys - remaining == payments.Keys;
    return Success(SortDesc(found, CreatedAt));
  }

  /** The lookup by the row's own id: found only when the read succeeds and
      exactly one row carries that id. */
  function GetPaymentById(payments: Payments, paymentId: string, readFails: bool): (r: ApiResponse<PaymentRow>)
    ensures r.Success? <==> !readFails && |MatchingKeys(payments, (p: PaymentRow) => p.id == paymentId)| == 1
    ensures r.Success? ==> r.data.id == paymentId && r.data in payments.Values
    ensures r.Failure? ==> r.error == PaymentNotFound
  {
    if readFails then Failure(PaymentNotFound)
    else
      match SingleMatch(payments, (p: PaymentRow) => p.id == paymentId)
      case None => Failure(PaymentNotFound)
      case Some(ref) => Success(payments[ref])
  }

  /** A purchase that was recorded can be read back by its row id: the fresh
      id makes its row the only one carrying it. */
  lemma CreatedPaymentIsFound(db: Ledger, userId: UserId, packageId: string, reply: ProviderReply,
                              rowId: string, now: Timestamp)
    requires reply.Created? && reply.intentId !in db.intents && reply.intentId !in db.payments
    requires forall ref :: ref in db.payments ==> db.payments[ref].id != rowId
    requires ResolvePackageId(packageId).Some? && userId in db.users
    ensures var r := CreatePaymentIntent(db, userId, packageId, reply, rowId, now, false);
      && r.response.Success?
      && GetPaymentById(r.next.payments, rowId, false) == Success(r.next.payments[reply.intentId])
  {
    var r := CreatePaymentIntent(db, userId, packageId, reply, rowId, now, false);
    var ref := reply.intentId;
    var matching := MatchingKeys(r.next.payments, (p: PaymentRow) => p.id == rowId);
    assert matching == {ref};
  }

  /** No prior-status guard, part one: a second success notification for the
      same reference grants the credits a second time. */
  lemma DuplicateSuccessGrantsTwice(db: Ledger, ref: string, t1: Timestamp, t2: Timestamp)
    requires ref in db.payments && db.payments[ref].userId in db.users
    ensures
      var p := db.payments[ref];
      var once := HandleSuccessfulPayment(db, ref, t1, NoFaults, NoFaults);
      var twice := HandleSuccessfulPayment(once.next, ref, t2, NoFaults, NoFaults);
      && once.response.Success? && twice.response.Success?
      && twice.next.payments[ref].status == Completed
      && twice.next.users[p.userId].paidCredits == db.users[p.userId].paidCredits + 2 * p.creditsPurchased
  {
    var p := db.payments[ref];
    var once := HandleSuccessfulPayment(db, ref, t1, NoFaults, NoFaults);
    assert once.next.payments[ref].userId == p.userId;
    assert once.next.payments[ref].creditsPurchased == p.creditsPurchased;
  }

  /** No prior-status guard, part two: a payment already marked `failed` is
      flipped to `completed` and its credits are granted. */
  lemma FailedPaymentCanBeCompleted(db: Ledger, ref: string, now: Timestamp)
    requires ref in db.payments && db.payments[ref].status == Failed
    requires db.payments[ref].userId in db.users
    ensures
      var p := db.payments[ref];
      var r := HandleSuccessfulPayment(db, ref, now, NoFaults, NoFaults);
      && r.response.Success?
      && r.next.payments[ref].status == Completed
      && r.next.users[p.userId].paidCredits == db.users[p.userId].paidCredits + p.creditsPurchased
  {
  }

  /** And the converse: a `completed` payment is flipped to `failed`, while
      the credits it granted stay with the owner. */
  lemma CompletedPaymentCanBeFailed(db: Ledger, ref: string, now: Timestamp)
    requires ref in db.payments && db.payments[ref].status == Completed
    ensures
      var r := HandleFailedPayment(db, ref, now, false);
      && r.response.Success?
      && r.next.payments[ref].status == Failed
      && r.next.users == db.users
  {
  }
}
