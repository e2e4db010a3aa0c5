/**
 * `TxPoolEntry`: a pooled transaction with its Dandelion relay status and the
 * time it entered the pool. Two entries are the same entry, and are ordered,
 * by their transaction hash alone.
 */
module TxPool {
  import opened Basics
  import opened Hashes

  /** The relay states of a pooled transaction; `Other` is any further value of the enumeration. */
  datatype DandelionStatus = ToStem | Stemmed | ToFluff | Fluffed | Other(code: int)

  /** A transaction, reduced to its hash and its serialized body. */
  datatype Transaction = Transaction(hash: Hash, body: seq<byte>)

  /** `timestamp` counts nanoseconds since the Unix epoch (`system_clock::time_point`). */
  datatype TxPoolEntry = TxPoolEntry(transaction: Transaction, status: DandelionStatus, timestamp: int)
  {
    function GetTransaction(): Transaction { transaction }

    function GetStatus(): DandelionStatus { status }

    function GetTimestamp(): int { timestamp }

    /** `operator<` */
    predicate Less(other: TxPoolEntry)
    {
      HashLess(transaction.hash, other.transaction.hash)
    }

    /** `operator==` */
    predicate Equal(other: TxPoolEntry)
    {
      transaction.hash == other.transaction.hash
    }

    /** `operator!=` */
    predicate NotEqual(other: TxPoolEntry)
    {
      transaction.hash != other.transaction.hash
    }
  }

  /** The constructor: the getters give back what it was given. */
  function NewEntry(tx: Transaction, status: DandelionStatus, timestamp: int): (e: TxPoolEntry)
    ensures e.GetTransaction() == tx && e.GetStatus() == status && e.GetTimestamp() == timestamp
  {
    TxPoolEntry(tx, status, timestamp)
  }

  /** `SetStatus`: replaces the status and nothing else. */
  function SetStatus(e: TxPoolEntry, newStatus: DandelionStatus): (r: TxPoolEntry)
    ensures r.GetStatus() == newStatus
    ensures r.GetTransaction() == e.GetTransaction() && r.GetTimestamp() == e.GetTimestamp()
  {
    e.(status := newStatus)
  }

  /** `!=` is the negation of `==`, and `==` holds exactly when the transaction hashes agree. */
  lemma EqualityByHash(a: TxPoolEntry, b: TxPoolEntry)
    ensures a.Equal(b) <==> a.GetTransaction().hash == b.GetTransaction().hash
    ensures a.NotEqual(b) <==> !a.Equal(b)
  {
  }

  /** Exactly one of `a < b`, `a == b`, `b < a` holds. */
  lemma EntryTrichotomy(a: TxPoolEntry, b: TxPoolEntry)
    ensures a.Less(b) || a.Equal(b) || b.Less(a)
    ensures !(a.Less(b) && a.Equal(b))
    ensures !(a.Less(b) && b.Less(a))
  {
    HashLessTrichotomy(a.transaction.hash, b.transaction.hash);
  }

  /** `<` is transitive. */
  lemma EntryLessTransitive(a: TxPoolEntry, b: TxPoolEntry, c: TxPoolEntry)
    requires a.Less(b) && b.Less(c)
    ensures a.Less(c)
  {
    LexLessTransitive(a.transaction.hash, b.transaction.hash, c.transaction.hash);
  }

  /**
   * Entries for the same transaction compare equal and neither is below the
   * other, whatever their status and timestamp.
   */
  lemma SameTransactionSameEntry(tx: Transaction, s1: DandelionStatus, t1: int, s2: DandelionStatus, t2: int)
    ensures var a, b := NewEntry(tx, s1, t1), NewEntry(tx, s2, t2);
      a.Equal(b) && !a.NotEqual(b) && !a.Less(b) && !b.Less(a)
  {
    LexLessIrreflexive(tx.hash);
  }

  /** Changing the status leaves an entry equal to itself and in the same place in the order. */
  lemma SetStatusKeepsIdentity(e: TxPoolEntry, s: DandelionStatus, other: TxPoolEntry)
    ensures SetStatus(e, s).Equal(e)
    ensures SetStatus(e, s).Less(other) <==> e.Less(other)
    ensures other.Less(SetStatus(e, s)) <==> other.Less(e)
  {
  }
}
