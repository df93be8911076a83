/** Record shapes of the credit ledger (the `users`, `payments` and
    `lookup_history` rows of the database schema) and the uniform
    response shape every service operation returns. */
module Types {

  datatype Option<+T> = None | Some(value: T)

  /** The services' `ApiResponse<T>`: a success flag with a payload, or an
      error message. The messages are the ones the services return verbatim. */
  datatype ApiResponse<+T> = Success(data: T) | Failure(error: string)

  /** A state transition: what the caller is told, and the store afterwards. */
  datatype Step<+T, +S> = Step(response: ApiResponse<T>, next: S)

  /** Timestamps are ISO-8601 strings in the store; only their order matters
      here, so they are modelled as instants. */
  type Timestamp = nat

  type UserId = string

  /** A row of the `users` table. `paidCredits` is a plain number in the
      source, with no lower bound enforced by the type. */
  datatype UserRow = UserRow(
    id: UserId,
    farcasterId: string,
    userAddress: Option<string>,
    paidCredits: int,
    createdAt: Timestamp,
    updatedAt: Timestamp)

  /** The `status` column of a payment. The store keeps it as free text; the
      services only ever write these three values. */
  datatype PaymentStatus = Pending | Completed | Failed

  /** A row of the `payments` table. */
  datatype PaymentRow = PaymentRow(
    id: string,
    userId: UserId,
    stripePaymentIntentId: string,
    amount: int,
    currency: string,
    creditsPurchased: int,
    status: PaymentStatus,
    createdAt: Timestamp,
    updatedAt: Timestamp)

  /** Whether each store call of an operation reports an error. The store is
      outside the model, so these are free inputs. */
  datatype StoreFaults = StoreFaults(readFails: bool, writeFails: bool)

  const NoFaults := StoreFaults(false, false)

  /** JavaScript truthiness of an optional string: absent, null and the empty
      string are all falsy. */
  predicate Provided(s: Option<string>)
  {
    s.Some? && s.value != ""
  }

  /** Keys of `m` whose value satisfies `p`. */
  function MatchingKeys<K(!new), V>(m: map<K, V>, p: V -> bool): (ks: set<K>)
    ensures forall k :: k in ks <==> k in m && p(m[k])
  {
    set k | k in m && p(m[k])
  }

  lemma SingletonHasOneElement<K>(s: set<K>, a: K, b: K)
    requires |s| == 1 && a in s && b in s
    ensures a == b
  {
    if a != b {
      SubsetCardinality({a, b}, s);
    }
  }

  lemma SubsetCardinality<K>(a: set<K>, b: set<K>)
    requires a <= b
    ensures |a| <= |b|
  {
    assert b == a + (b - a);
  }

  /** The store's `.single()` query: the key of the one row satisfying `p`,
      and nothing when no row or more than one row does. */
  function SingleMatch<K(!new), V>(m: map<K, V>, p: V -> bool): (r: Option<K>)
    ensures r.Some? <==> |MatchingKeys(m, p)| == 1
    ensures r.Some? ==> r.value in m && p(m[r.value])
    ensures r.Some? ==> forall k :: k in m && p(m[k]) ==> k == r.value
  {
    var ks := MatchingKeys(m, p);
    if |ks| != 1 then None
    else
      var k :| k in ks;
      assert forall j :: j in ks ==> j == k by {
        forall j | j in ks ensures j == k {
          SingletonHasOneElement(ks, j, k);
        }
      }
      Some(k)
  }
}
