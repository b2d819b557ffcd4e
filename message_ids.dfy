/**
 * Packet identifiers (MQTT 3.1.1, section 2.3.1): the client keeps one
 * counter, `messageIdCounter`, that starts at 0 and is advanced by
 * `nextMessageId` before each PUBLISH, SUBSCRIBE and UNSUBSCRIBE.
 */
module MessageIds {

  /** MAX_MESSAGE_ID: the largest identifier a 16-bit field can carry. */
  const MaxMessageId: int := 65535

  /**
   * The value `nextMessageId` stores and returns for the current counter. The
   * counter never leaves [0, 65535], so Java's `%` agrees with Dafny's here
   * and `counter + 1` cannot overflow a Java int.
   */
  function NextId(counter: int): (id: int)
    requires 0 <= counter <= MaxMessageId
    ensures 1 <= id <= MaxMessageId
    ensures counter == 0 || counter == MaxMessageId ==> id == 1
    ensures 0 < counter < MaxMessageId ==> id == counter + 1
  {
    if counter % MaxMessageId != 0 then counter + 1 else 1
  }

  /** The counter after `n` calls of `nextMessageId` from its initial value 0. */
  function CounterAfter(n: nat): (counter: int)
    ensures 0 <= counter <= MaxMessageId
    ensures n > 0 ==> counter != 0
  {
    if n == 0 then 0 else NextId(CounterAfter(n - 1))
  }

  /** The identifiers returned by the first `n` calls, in order. */
  function Allocated(n: nat): (ids: seq<int>)
    ensures |ids| == n
  {
    if n == 0 then [] else Allocated(n - 1) + [CounterAfter(n)]
  }

  /** Remainders modulo 65535 advance by one and wrap to 0. */
  lemma ModSuccessor(m: nat)
    ensures (m + 1) % MaxMessageId ==
      if m % MaxMessageId == MaxMessageId - 1 then 0 else m % MaxMessageId + 1
  {
    var q, r := m / MaxMessageId, m % MaxMessageId;
    assert m == q * MaxMessageId + r;
    if r == MaxMessageId - 1 {
      assert m + 1 == (q + 1) * MaxMessageId;
    } else {
      assert m + 1 == q * MaxMessageId + (r + 1);
    }
  }

  /** The counter runs through 1, 2, ..., 65535 and then starts again at 1. */
  lemma {:induction false} CounterAfterCycles(n: nat)
    ensures CounterAfter(n) == if n == 0 then 0 else (n - 1) % MaxMessageId + 1
  {
    if n > 1 {
      CounterAfterCycles(n - 1);
      ModSuccessor(n - 2);
    }
  }


  /** The `k`-th identifier handed out (counting from 0). */
  lemma {:induction false} AllocatedAt(n: nat, k: nat)
    requires k < n
    ensures Allocated(n)[k] == k % MaxMessageId + 1
  {
    if k < n - 1 {
      AllocatedAt(n - 1, k);
    } else {
      CounterAfterCycles(n);
    }
  }

  /** Every identifier handed out is a valid, nonzero packet identifier. */
  lemma AllocatedInRange(n: nat, k: nat)
    requires k < n
    ensures 1 <= Allocated(n)[k] <= MaxMessageId
  {
    AllocatedAt(n, k);
  }

  /** Fewer than 65535 allocations apart, two identifiers differ. */
  lemma AllocatedDistinctWithinCycle(n: nat, j: nat, k: nat)
    requires j < k < n && k - j < MaxMessageId
    ensures Allocated(n)[j] != Allocated(n)[k]
  {
    AllocatedAt(n, j);
    AllocatedAt(n, k);
    assert j == j / MaxMessageId * MaxMessageId + j % MaxMessageId;
    assert k == k / MaxMessageId * MaxMessageId + k % MaxMessageId;
  }

  /** Exactly 65535 allocations apart, the same identifier comes back. */
  lemma AllocatedRecursAfterCycle(n: nat, k: nat)
    requires k + MaxMessageId < n
    ensures Allocated(n)[k + MaxMessageId] == Allocated(n)[k]
  {
    AllocatedAt(n, k);
    AllocatedAt(n, k + MaxMessageId);
  }
}
