/** The ledger as a whole: the invariant every ledger operation keeps, runs of
    requests, and the duplicate-delivery behaviour of settlement. */
module LedgerRuns {
  import opened Types
  import opened Stripe
  import opened UserService
  import opened PaymentService
  import opened StripeWebhook

  /** The ledger invariant: rows are filed under their own keys, no balance
      is negative, and every payment belongs to an existing account, promises
      a positive number of credits, and has a provider intent. */
  predicate Wf(db: Ledger)
  {
    && UsersWf(db.users)
    && (forall id :: id in db.users ==> db.users[id].paidCredits >= 0)
    && PaymentsWf(db.payments)
    && (forall ref :: ref in db.payments ==>
          && db.payments[ref].userId in db.users
          && db.payments[ref].creditsPurchased > 0
          && ref in db.intents)
  }

  /** The service operations that change the accounts and payments: signing
      in (the auth route), starting a purchase (the create-intent route), a
      provider notification (the webhook), and spending credits, which the
      user service offers although no route calls it. */
  datatype Command =
    | SignIn(farcasterId: string, userAddress: Option<string>, newId: UserId, faults: StoreFaults)
    | Spend(userId: UserId, cost: int, faults: StoreFaults)
    | Purchase(userId: UserId, packageId: string, reply: ProviderReply, rowId: string, insertFails: bool)
    | Notify(delivery: Delivery, handlerFaults: HandlerFaults)

  datatype Request = Request(at: Timestamp, command: Command)

  /** Whether the fresh ids a command carries are really fresh. */
  predicate FreshIds(db: Ledger, c: Command)
  {
    match c
    case SignIn(_, _, newId, _) => newId !in db.users
    case Purchase(_, _, reply, rowId, _) =>
      && (reply.Created? ==> reply.intentId !in db.intents && reply.intentId !in db.payments)
      && (forall ref :: ref in db.payments ==> db.payments[ref].id != rowId)
    case _ => true
  }

  /** One request. A command whose ids are not fresh cannot be issued by the
      id supply, so it is dropped. */
  function Apply(db: Ledger, req: Request, constructEvent: ConstructEvent): Ledger
  {
    if !FreshIds(db, req.command) then db
    else
      match req.command
      case SignIn(fid, address, newId, faults) =>
        db.(users := GetOrCreateUser(db.users, fid, address, newId, req.at, faults).next)
      case Spend(id, cost, faults) =>
        db.(users := DeductCredits(db.users, id, req.at, faults, cost).next)
      case Purchase(id, packageId, reply, rowId, insertFails) =>
        CreatePaymentIntent(db, id, packageId, reply, rowId, req.at, insertFails).next
      case Notify(delivery, faults) =>
        Post(db, delivery, constructEvent, req.at, faults).next
  }

  function Run(db: Ledger, reqs: seq<Request>, constructEvent: ConstructEvent): Ledger
    decreases |reqs|
  {
    if |reqs| == 0 then db else Run(Apply(db, reqs[0], constructEvent), reqs[1..], constructEvent)
  }

  lemma SignInKeepsWf(db: Ledger, fid: string, address: Option<string>, newId: UserId,
                      now: Timestamp, faults: StoreFaults)
    requires Wf(db) && newId !in db.users
    ensures Wf(db.(users := GetOrCreateUser(db.users, fid, address, newId, now, faults).next))
  {
  }

  /** The payment rows keep their owner, their promised credits and their
      key; only statuses change. */
  lemma StatusChangeKeepsWf(db: Ledger, next: Ledger, ref: string, status: PaymentStatus)
    requires Wf(db)
    requires OnlyStatusChanged(db.payments, next.payments, ref, status)
    requires next.intents == db.intents
    requires UsersWf(next.users) && next.users.Keys == db.users.Keys
    requires forall id :: id in next.users ==> next.users[id].paidCredits >= 0
    ensures Wf(next)
  {
    forall k | k in next.payments
      ensures next.payments[k].stripePaymentIntentId == k
      ensures next.payments[k].userId in next.users && next.payments[k].creditsPurchased > 0
      ensures k in next.intents
    {
      assert k in db.payments;
    }
  }

  lemma SuccessKeepsWf(db: Ledger, ref: string, now: Timestamp, faults: HandlerFaults)
    requires Wf(db)
    ensures Wf(HandleSuccessfulPayment(db, ref, now, faults.payment, faults.credit).next)
  {
    var r := HandleSuccessfulPayment(db, ref, now, faults.payment, faults.credit);
    if ref in db.payments && !faults.payment.readFails && !faults.payment.writeFails {
      var p := db.payments[ref];
      assert p.creditsPurchased > 0;
      if r.response.Success? {
        assert OnlyBalanceChanged(db.users, r.next.users, p.userId,
                                  db.users[p.userId].paidCredits + p.creditsPurchased);
        forall id | id in r.next.users
          ensures r.next.users[id].paidCredits >= 0 && r.next.users[id].id == id
        {
          assert id in db.users;
        }
      }
      StatusChangeKeepsWf(db, r.next, ref, Completed);
    }
  }

  lemma FailureKeepsWf(db: Ledger, ref: string, now: Timestamp, writeFails: bool)
    requires Wf(db)
    ensures Wf(HandleFailedPayment(db, ref, now, writeFails).next)
  {
    var r := HandleFailedPayment(db, ref, now, writeFails);
    if !writeFails && ref in db.payments {
      StatusChangeKeepsWf(db, r.next, ref, Failed);
    }
  }

  lemma SpendKeepsWf(db: Ledger, id: UserId, cost: int, now: Timestamp, faults: StoreFaults)
    requires Wf(db)
    ensures Wf(db.(users := DeductCredits(db.users, id, now, faults, cost).next))
  {
    var next := DeductCredits(db.users, id, now, faults, cost).next;
    DeductKeepsBalancesNonNegative(db.users, id, cost, now, faults);
    assert next.Keys == db.users.Keys;
  }

  lemma PurchaseKeepsWf(db: Ledger, id: UserId, packageId: string, reply: ProviderReply, rowId: string,
                        now: Timestamp, insertFails: bool)
    requires Wf(db)
    requires reply.Created? ==> reply.intentId !in db.intents && reply.intentId !in db.payments
    requires forall ref :: ref in db.payments ==> db.payments[ref].id != rowId
    ensures Wf(CreatePaymentIntent(db, id, packageId, reply, rowId, now, insertFails).next)
  {
    var next := CreatePaymentIntent(db, id, packageId, reply, rowId, now, insertFails).next;
    if ResolvePackageId(packageId).Some? && reply.Created? {
      assert next.intents.Keys == db.intents.Keys + {reply.intentId};
    }
  }

  lemma NotifyKeepsWf(db: Ledger, d: Delivery, constructEvent: ConstructEvent, now: Timestamp,
                      faults: HandlerFaults)
    requires Wf(db)
    ensures Wf(Post(db, d, constructEvent, now, faults).next)
  {
    var e := Authenticate(d, constructEvent);
    if e.Some? {
      SuccessKeepsWf(db, e.value.objectId, now, faults);
      FailureKeepsWf(db, e.value.objectId, now, faults.payment.writeFails);
    }
  }

  /** Every request keeps the invariant; in particular no balance ever goes
      below zero. */
  lemma ApplyKeepsWf(db: Ledger, req: Request, constructEvent: ConstructEvent)
    requires Wf(db)
    ensures Wf(Apply(db, req, constructEvent))
  {
    if FreshIds(db, req.command) {
      match req.command
      case SignIn(fid, address, newId, faults) =>
        SignInKeepsWf(db, fid, address, newId, req.at, faults);
      case Spend(id, cost, faults) =>
        SpendKeepsWf(db, id, cost, req.at, faults);
      case Purchase(id, packageId, reply, rowId, insertFails) =>
        PurchaseKeepsWf(db, id, packageId, reply, rowId, req.at, insertFails);
      case Notify(delivery, faults) =>
        NotifyKeepsWf(db, delivery, constructEvent, req.at, faults);
    }
  }

  lemma {:induction false} RunKeepsWf(db: Ledger, reqs: seq<Request>, constructEvent: ConstructEvent)
    requires Wf(db)
    ensures Wf(Run(db, reqs, constructEvent))
    decreases |reqs|
  {
    if |reqs| > 0 {
      ApplyKeepsWf(db, reqs[0], constructEvent);
      RunKeepsWf(Apply(db, reqs[0], constructEvent), reqs[1..], constructEvent);
    }
  }

  /** After any run from an empty ledger, every balance is at least zero. */
  lemma BalancesNeverNegative(reqs: seq<Request>, constructEvent: ConstructEvent)
    ensures var db := Run(Ledger(map[], map[], map[]), reqs, constructEvent);
      forall id :: id in db.users ==> db.users[id].paidCredits >= 0
  {
    RunKeepsWf(Ledger(map[], map[], map[]), reqs, constructEvent);
  }

  // ---------------------------------------------------------------------
  // A settlement story: one account, two purchases, a replayed success
  // notification, four spends, and a failure notification.

  /** A stand-in for the provider's signature check in the story: signature
      "sig" verifies, and the two bodies decode to a success for "pi_A" and a
      failure for "pi_B". */
  function StoryEvents(body: string, signature: string): Option<Event>
  {
    if signature != "sig" then None
    else if body == "A" then Some(Event(SucceededEvent, "pi_A"))
    else if body == "B" then Some(Event(FailedEvent, "pi_B"))
    else None
  }

  function StoryRequests(): seq<Request>
  {
    var quiet := HandlerFaults(NoFaults, NoFaults);
    [ Request(1, SignIn("fc-1", None, "u1", NoFaults)),
      Request(2, Purchase("u1", "STANDARD", Created("pi_A", "secret_A"), "pay-1", false)),
      Request(3, Purchase("u1", "BASIC", Created("pi_B", "secret_B"), "pay-2", false)),
      Request(4, Notify(Delivery("A", Some("sig")), quiet)),
      Request(5, Notify(Delivery("A", Some("sig")), quiet)),
      Request(6, Spend("u1", 1, NoFaults)),
      Request(7, Spend("u1", 1, NoFaults)),
      Request(8, Spend("u1", 1, NoFaults)),
      Request(9, Spend("u1", 1, NoFaults)),
      Request(10, Notify(Delivery("B", Some("sig")), quiet)) ]
  }

  lemma StorySignIn()
    ensures var db := Apply(Ledger(map[], map[], map[]), StoryRequests()[0], StoryEvents);
      && db.users.Keys == {"u1"} && db.users["u1"].paidCredits == 3
      && db.payments == map[] && db.intents == map[]
  {
  }

  lemma StoryPurchases(db: Ledger)
    requires db.users.Keys == {"u1"} && db.payments == map[] && db.intents == map[]
    ensures var db1 := Apply(db, StoryRequests()[1], StoryEvents);
      var db2 := Apply(db1, StoryRequests()[2], StoryEvents);
      && db2.users == db.users && db2.payments.Keys == {"pi_A", "pi_B"}
      && db2.payments["pi_A"].userId == "u1" && db2.payments["pi_A"].creditsPurchased == 15
      && db2.payments["pi_B"].status == Pending
  {
    var db1 := Apply(db, StoryRequests()[1], StoryEvents);
    assert db1.payments.Keys == {"pi_A"} && db1.intents.Keys == {"pi_A"};
  }

  /** Each authenticated success notification for "pi_A" adds its 15 credits. */
  lemma StorySuccess(db: Ledger, at: Timestamp)
    requires "u1" in db.users && "pi_A" in db.payments && "pi_B" in db.payments
    requires db.payments["pi_A"].userId == "u1" && db.payments["pi_A"].creditsPurchased == 15
    ensures var next := Apply(db, Request(at, Notify(Delivery("A", Some("sig")), HandlerFaults(NoFaults, NoFaults))),
                              StoryEvents);
      && next.users.Keys == db.users.Keys
      && next.users["u1"].paidCredits == db.users["u1"].paidCredits + 15
      && next.payments.Keys == db.payments.Keys && next.payments["pi_B"] == db.payments["pi_B"]
      && next.payments["pi_A"].userId == "u1" && next.payments["pi_A"].creditsPurchased == 15
      && next.payments["pi_A"].status == Completed
  {
  }

  lemma StorySpend(db: Ledger, at: Timestamp)
    requires "u1" in db.users && db.users["u1"].paidCredits >= 1
    ensures var next := Apply(db, Request(at, Spend("u1", 1, NoFaults)), StoryEvents);
      && next.users.Keys == db.users.Keys
      && next.users["u1"].paidCredits == db.users["u1"].paidCredits - 1
      && next.payments == db.payments
  {
  }

  lemma StoryFailure(db: Ledger)
    requires "pi_B" in db.payments
    ensures var next := Apply(db, StoryRequests()[9], StoryEvents);
      && next.users == db.users
      && next.payments.Keys == db.payments.Keys
      && next.payments["pi_B"].status == Failed
      && (forall k :: k in db.payments && k != "pi_B" ==> next.payments[k] == db.payments[k])
  {
  }

  /** The replayed notification is credited twice: 3 + 15 + 15 - 4 = 29
      credits rather than 3 + 15 - 4 = 14; the unrelated pending purchase ends
      `failed` without touching the balance. */
  lemma ReplayedNotificationStory()
    ensures
      var db := Run(Ledger(map[], map[], map[]), StoryRequests(), StoryEvents);
      && "u1" in db.users && db.users["u1"].paidCredits == 29
      && "pi_A" in db.payments && db.payments["pi_A"].status == Completed
      && "pi_B" in db.payments && db.payments["pi_B"].status == Failed
  {
    var reqs := StoryRequests();
    var db0 := Ledger(map[], map[], map[]);
    StoryRunIsApplies(db0, reqs, StoryEvents);
    StoryOpening();
    var db5 := Apply(Apply(Apply(Apply(Apply(db0, reqs[0], StoryEvents), reqs[1], StoryEvents), reqs[2], StoryEvents),
                           reqs[3], StoryEvents), reqs[4], StoryEvents);
    StorySpends(db5);
    var db9 := Apply(Apply(Apply(Apply(db5, reqs[5], StoryEvents), reqs[6], StoryEvents), reqs[7], StoryEvents),
                     reqs[8], StoryEvents);
    StoryFailure(db9);
  }

  /** Sign-in, two purchases and the replayed success notification: 3 + 15
      + 15 credits, the first payment `completed`, the second still there. */
  lemma StoryOpening()
    ensures
      var reqs := StoryRequests();
      var db := Apply(Apply(Apply(Apply(Apply(Ledger(map[], map[], map[]), reqs[0], StoryEvents), reqs[1], StoryEvents),
                                  reqs[2], StoryEvents), reqs[3], StoryEvents), reqs[4], StoryEvents);
      && "u1" in db.users && db.users["u1"].paidCredits == 33
      && "pi_A" in db.payments && db.payments["pi_A"].status == Completed
      && "pi_B" in db.payments
  {
    var reqs := StoryRequests();
    var db3 := Apply(Apply(Apply(Ledger(map[], map[], map[]), reqs[0], StoryEvents), reqs[1], StoryEvents),
                     reqs[2], StoryEvents);
    StoryAccountAndPurchases();
    StoryNotifications(db3);
  }

  /** The success notification for "pi_A", delivered twice, adds its 15
      credits each time. */
  lemma StoryNotifications(db: Ledger)
    requires "u1" in db.users && db.payments.Keys == {"pi_A", "pi_B"}
    requires db.payments["pi_A"].userId == "u1" && db.payments["pi_A"].creditsPurchased == 15
    ensures
      var reqs := StoryRequests();
      var next := Apply(Apply(db, reqs[3], StoryEvents), reqs[4], StoryEvents);
      && "u1" in next.users && next.users["u1"].paidCredits == db.users["u1"].paidCredits + 30
      && "pi_A" in next.payments && next.payments["pi_A"].status == Completed
      && "pi_B" in next.payments
  {
    var quiet := HandlerFaults(NoFaults, NoFaults);
    assert StoryRequests()[3] == Request(4, Notify(Delivery("A", Some("sig")), quiet));
    assert StoryRequests()[4] == Request(5, Notify(Delivery("A", Some("sig")), quiet));
    StorySuccess(db, 4);
    StorySuccess(Apply(db, Request(4, Notify(Delivery("A", Some("sig")), quiet)), StoryEvents), 5);
  }

  /** Sign-in and the two purchases: three credits and two pending payments. */
  lemma StoryAccountAndPurchases()
    ensures
      var reqs := StoryRequests();
      var db := Apply(Apply(Apply(Ledger(map[], map[], map[]), reqs[0], StoryEvents), reqs[1], StoryEvents),
                      reqs[2], StoryEvents);
      && "u1" in db.users && db.users["u1"].paidCredits == 3
      && db.payments.Keys == {"pi_A", "pi_B"}
      && db.payments["pi_A"].userId == "u1" && db.payments["pi_A"].creditsPurchased == 15
  {
    StorySignIn();
    StoryPurchases(Apply(Ledger(map[], map[], map[]), StoryRequests()[0], StoryEvents));
  }

  /** The four spends take one credit each and leave the payments alone. */
  lemma StorySpends(db: Ledger)
    requires "u1" in db.users && db.users["u1"].paidCredits >= 4
    ensures
      var reqs := StoryRequests();
      var next := Apply(Apply(Apply(Apply(db, reqs[5], StoryEvents), reqs[6], StoryEvents), reqs[7], StoryEvents),
                        reqs[8], StoryEvents);
      && "u1" in next.users && next.users["u1"].paidCredits == db.users["u1"].paidCredits - 4
      && next.payments == db.payments
  {
    var reqs := StoryRequests();
    StorySpend(db, 6);
    var db6 := Apply(db, reqs[5], StoryEvents);
    StorySpend(db6, 7);
    var db7 := Apply(db6, reqs[6], StoryEvents);
    StorySpend(db7, 8);
    var db8 := Apply(db7, reqs[7], StoryEvents);
    StorySpend(db8, 9);
  }

  /** A run of ten requests is the ten steps in order. */
  lemma StoryRunIsApplies(db: Ledger, reqs: seq<Request>, ce: ConstructEvent)
    requires |reqs| == 10
    ensures Run(db, reqs, ce) ==
      Apply(Apply(Apply(Apply(Apply(Apply(Apply(Apply(Apply(Apply(db, reqs[0], ce), reqs[1], ce), reqs[2], ce),
        reqs[3], ce), reqs[4], ce), reqs[5], ce), reqs[6], ce), reqs[7], ce), reqs[8], ce), reqs[9], ce)
  {
    var d0 := db;
    var d1 := Apply(d0, reqs[0], ce);
    assert Run(d0, reqs[0..], ce) == Run(d1, reqs[1..], ce) by {
      assert reqs[0..][0] == reqs[0] && reqs[0..][1..] == reqs[1..];
    }
    var d2 := Apply(d1, reqs[1], ce);
    assert Run(d1, reqs[1..], ce) == Run(d2, reqs[2..], ce) by {
      assert reqs[1..][0] == reqs[1] && reqs[1..][1..] == reqs[2..];
    }
    var d3 := Apply(d2, reqs[2], ce);
    assert Run(d2, reqs[2..], ce) == Run(d3, reqs[3..], ce) by {
      assert reqs[2..][0] == reqs[2] && reqs[2..][1..] == reqs[3..];
    }
    var d4 := Apply(d3, reqs[3], ce);
    assert Run(d3, reqs[3..], ce) == Run(d4, reqs[4..], ce) by {
      assert reqs[3..][0] == reqs[3] && reqs[3..][1..] == reqs[4..];
    }
    var d5 := Apply(d4, reqs[4], ce);
    assert Run(d4, reqs[4..], ce) == Run(d5, reqs[5..], ce) by {
      assert reqs[4..][0] == reqs[4] && reqs[4..][1..] == reqs[5..];
    }
    var d6 := Apply(d5, reqs[5], ce);
    assert Run(d5, reqs[5..], ce) == Run(d6, reqs[6..], ce) by {
      assert reqs[5..][0] == reqs[5] && reqs[5..][1..] == reqs[6..];
    }
    var d7 := Apply(d6, reqs[6], ce);
    assert Run(d6, reqs[6..], ce) == Run(d7, reqs[7..], ce) by {
      assert reqs[6..][0] == reqs[6] && reqs[6..][1..] == reqs[7..];
    }
    var d8 := Apply(d7, reqs[7], ce);
    assert Run(d7, reqs[7..], ce) == Run(d8, reqs[8..], ce) by {
      assert reqs[7..][0] == reqs[7] && reqs[7..][1..] == reqs[8..];
    }
    var d9 := Apply(d8, reqs[8], ce);
    assert Run(d8, reqs[8..], ce) == Run(d9, reqs[9..], ce) by {
      assert reqs[8..][0] == reqs[8] && reqs[8..][1..] == reqs[9..];
    }
    var d10 := Apply(d9, reqs[9], ce);
    assert Run(d9, reqs[9..], ce) == Run(d10, reqs[10..], ce) by {
      assert reqs[9..][0] == reqs[9] && reqs[9..][1..] == reqs[10..];
    }
    assert reqs[0..] == reqs;
  }
}
