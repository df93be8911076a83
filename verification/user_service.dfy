/** Accounts: the `users` table and the operations that create accounts and
    move their credit balances. */
module UserService {
  import opened Types

  /** The `users` table, keyed by the account id. */
  type Users = map<UserId, UserRow>

  /** Credits granted to every newly created account. */
  const InitialGrant := 3

  /** What one billable action costs when the caller does not say. */
  const DefaultDeduction := 1

  const UserNotFound := "User not found"
  const InsufficientCredits := "Insufficient credits"

  /** Every row is filed under its own id. */
  predicate UsersWf(users: Users)
  {
    forall id :: id in users ==> users[id].id == id
  }

  /** `next` is `users` with the balance of `id` set to `balance` (and its
      update stamp refreshed); nothing else differs. */
  predicate OnlyBalanceChanged(users: Users, next: Users, id: UserId, balance: int)
  {
    && id in users
    && next.Keys == users.Keys
    && next[id] == users[id].(paidCredits := balance, updatedAt := next[id].updatedAt)
    && forall k :: k in users && k != id ==> next[k] == users[k]
  }

  /** `next` is `users` with the address of `id` set to `address` (and its
      update stamp refreshed); in particular no balance differs. */
  predicate OnlyAddressChanged(users: Users, next: Users, id: UserId, address: Option<string>)
  {
    && id in users
    && next.Keys == users.Keys
    && next[id] == users[id].(userAddress := address, updatedAt := next[id].updatedAt)
    && forall k :: k in users && k != id ==> next[k] == users[k]
  }

  /** The accounts registered under a Farcaster id. */
  function WithFarcasterId(users: Users, farcasterId: string): (ids: set<UserId>)
    ensures forall id :: id in ids <==> id in users && users[id].farcasterId == farcasterId
  {
    MatchingKeys(users, (u: UserRow) => u.farcasterId == farcasterId)
  }

  /** The lookup by Farcaster id: it finds an account only when the read
      succeeds and exactly one row carries that id. */
  function FindByFarcasterId(users: Users, farcasterId: string, readFails: bool): (r: Option<UserId>)
    ensures r.Some? <==> !readFails && |WithFarcasterId(users, farcasterId)| == 1
    ensures r.Some? ==> WithFarcasterId(users, farcasterId) == {r.value}
  {
    if readFails then None
    else SingleMatch(users, (u: UserRow) => u.farcasterId == farcasterId)
  }

  /** Resolves an account by Farcaster id, creating it with the initial grant
      when the lookup finds none, and updating its stored address when a
      different non-empty address is given. `newId` is the fresh id the id
      generator would supply. */
  function GetOrCreateUser(users: Users, farcasterId: string, userAddress: Option<string>,
                           newId: UserId, now: Timestamp, faults: StoreFaults): (r: Step<UserRow, Users>)
    requires newId !in users
    // creation: exactly one new row, holding the initial grant
    ensures FindByFarcasterId(users, farcasterId, faults.readFails).None? ==>
      if faults.writeFails then r == Step(Failure("Failed to create user"), users)
      else
        && r.response.Success?
        && r.next == users[newId := r.response.data]
        && r.response.data.id == newId
        && r.response.data.farcasterId == farcasterId
        && r.response.data.paidCredits == InitialGrant
        && r.response.data.userAddress == (if Provided(userAddress) then userAddress else None)
    // an existing account whose address need not change: returned as stored, nothing written
    ensures FindByFarcasterId(users, farcasterId, faults.readFails).Some? ==>
      var id := FindByFarcasterId(users, farcasterId, faults.readFails).value;
      !(Provided(userAddress) && users[id].userAddress != userAddress) ==>
        r == Step(Success(users[id]), users)
    // an existing account with a new address: only that address changes
    ensures FindByFarcasterId(users, farcasterId, faults.readFails).Some? ==>
      var id := FindByFarcasterId(users, farcasterId, faults.readFails).value;
      Provided(userAddress) && users[id].userAddress != userAddress ==>
        if faults.writeFails then r == Step(Failure("Failed to update user address"), users)
        else OnlyAddressChanged(users, r.next, id, userAddress) && r.response == Success(r.next[id])
    // no existing balance is ever touched
    ensures forall id :: id in users ==> id in r.next && r.next[id].paidCredits == users[id].paidCredits
  {
    match FindByFarcasterId(users, farcasterId, faults.readFails)
    case Some(id) =>
      var existing := users[id];
      if Provided(userAddress) && existing.userAddress != userAddress then
        if faults.writeFails then Step(Failure("Failed to update user address"), users)
        else
          var updated := existing.(userAddress := userAddress, updatedAt := now);
          Step(Success(updated), users[id := updated])
      else
        Step(Success(existing), users)
    case None =>
      var created := UserRow(newId, farcasterId, if Provided(userAddress) then userAddress else None,
                             InitialGrant, now, now);
      if faults.writeFails then Step(Failure("Failed to create user"), users)
      else Step(Success(created), users[newId := created])
  }

  function GetUserById(users: Users, id: UserId, readFails: bool): (r: ApiResponse<UserRow>)
    ensures r.Success? <==> id in users && !readFails
    ensures r.Success? ==> r.data == users[id]
    ensures r.Failure? ==> r.error == UserNotFound
  {
    if readFails || id !in users then Failure(UserNotFound) else Success(users[id])
  }

  /** Adds `creditsToAdd` (of either sign) to the balance of `id`. */
  function UpdateUserCredits(users: Users, id: UserId, creditsToAdd: int,
                             now: Timestamp, faults: StoreFaults): (r: Step<UserRow, Users>)
    ensures r.response.Success? <==> id in users && !faults.readFails && !faults.writeFails
    ensures r.response.Failure? ==> r.next == users
    ensures (id !in users || faults.readFails) ==> r.response == Failure(UserNotFound)
    ensures id in users && !faults.readFails && faults.writeFails ==>
      r.response == Failure("Failed to update credits")
    ensures r.response.Success? ==>
      && OnlyBalanceChanged(users, r.next, id, users[id].paidCredits + creditsToAdd)
      && r.response.data == r.next[id]
  {
    match GetUserById(users, id, faults.readFails)
    case Failure(_) => Step(Failure(UserNotFound), users)
    case Success(current) =>
      if faults.writeFails then Step(Failure("Failed to update credits"), users)
      else
        var updated := current.(paidCredits := current.paidCredits + creditsToAdd, updatedAt := now);
        Step(Success(updated), users[id := updated])
  }

  /** Read after write: once a credit update succeeds, reading the account
      back returns the written row, whose balance moved by the amount, and
      every other account reads as before. */
  lemma ReadAfterUpdate(users: Users, id: UserId, creditsToAdd: int, now: Timestamp, other: UserId)
    requires UpdateUserCredits(users, id, creditsToAdd, now, NoFaults).response.Success?
    ensures var r := UpdateUserCredits(users, id, creditsToAdd, now, NoFaults);
      && GetUserById(r.next, id, false) == Success(r.response.data)
      && GetUserById(r.next, id, false).data.paidCredits == GetUserById(users, id, false).data.paidCredits + creditsToAdd
      && (other != id ==> GetUserById(r.next, other, false) == GetUserById(users, other, false))
  {
  }

  /** The billable-action gate: checks the balance against the cost, then
      subtracts it. */
  function DeductCredits(users: Users, id: UserId, now: Timestamp, faults: StoreFaults,
                         creditsToDeduct: int := DefaultDeduction): (r: Step<UserRow, Users>)
    ensures r.response.Failure? ==> r.next == users
    ensures (id !in users || faults.readFails) ==> r.response == Failure(UserNotFound)
    ensures id in users && !faults.readFails ==>
      (r.response == Failure(InsufficientCredits) <==> users[id].paidCredits < creditsToDeduct)
    ensures id in users && !faults.readFails && users[id].paidCredits >= creditsToDeduct && faults.writeFails ==>
      r.response == Failure("Failed to deduct credits")
    ensures r.response.Success? <==>
      id in users && !faults.readFails && !faults.writeFails && users[id].paidCredits >= creditsToDeduct
    ensures r.response.Success? ==>
      && OnlyBalanceChanged(users, r.next, id, users[id].paidCredits - creditsToDeduct)
      && r.response.data == r.next[id]
      && r.next[id].paidCredits >= 0
  {
    match GetUserById(users, id, faults.readFails)
    case Failure(_) => Step(Failure(UserNotFound), users)
    case Success(current) =>
      if current.paidCredits < creditsToDeduct then Step(Failure(InsufficientCredits), users)
      else if faults.writeFails then Step(Failure("Failed to deduct credits"), users)
      else
        var updated := current.(paidCredits := current.paidCredits - creditsToDeduct, updatedAt := now);
        Step(Success(updated), users[id := updated])
  }

  /** Without an explicit cost, one billable action takes exactly one credit. */
  lemma DefaultDeductionTakesOne(users: Users, id: UserId, now: Timestamp)
    requires id in users && users[id].paidCredits >= 1
    ensures DeductCredits(users, id, now, NoFaults).response.Success?
    ensures DeductCredits(users, id, now, NoFaults).next[id].paidCredits == users[id].paidCredits - 1
  {
  }

  /** Deducting a cost and then adding it back restores the balance: the two
      balance operations are inverse to each other. */
  lemma DeductThenRefundRestoresBalance(users: Users, id: UserId, cost: int, t1: Timestamp, t2: Timestamp)
    requires id in users && users[id].paidCredits >= cost
    ensures
      var spent := DeductCredits(users, id, t1, NoFaults, cost);
      var refunded := UpdateUserCredits(spent.next, id, cost, t2, NoFaults);
      && refunded.response.Success?
      && refunded.next.Keys == users.Keys
      && refunded.next[id] == users[id].(updatedAt := t2)
      && forall k :: k in users && k != id ==> refunded.next[k] == users[k]
  {
  }

  /** A balance that is never negative stays so under the gate: a deduction
      either fails and writes nothing, or leaves at least zero. */
  lemma DeductKeepsBalancesNonNegative(users: Users, id: UserId, cost: int, now: Timestamp, faults: StoreFaults)
    requires forall k :: k in users ==> users[k].paidCredits >= 0
    ensures var next := DeductCredits(users, id, now, faults, cost).next;
      forall k :: k in next ==> next[k].paidCredits >= 0
  {
  }

  /** Resolving a new Farcaster id twice creates the account once: the second
      call finds the row the first one wrote and changes nothing. */
  lemma GetOrCreateIsIdempotent(users: Users, farcasterId: string, userAddress: Option<string>,
                                id1: UserId, id2: UserId, t1: Timestamp, t2: Timestamp)
    requires UsersWf(users)
    requires WithFarcasterId(users, farcasterId) == {}
    requires id1 !in users && id2 != id1 && id2 !in users
    ensures
      var first := GetOrCreateUser(users, farcasterId, userAddress, id1, t1, NoFaults);
      var second := GetOrCreateUser(first.next, farcasterId, userAddress, id2, t2, NoFaults);
      && first.response.Success?
      && second == Step(first.response, first.next)
  {
    var first := GetOrCreateUser(users, farcasterId, userAddress, id1, t1, NoFaults);
    assert FindByFarcasterId(users, farcasterId, false).None?;
    var row := first.response.data;
    assert WithFarcasterId(first.next, farcasterId) == {id1};
    assert FindByFarcasterId(first.next, farcasterId, false) == Some(id1);
  }
}
