/**
 * `sortTxns` (web-app/app/lib/utils/sortTxns.ts): the comparator that orders event logs by block
 * number and, within a block, by transaction index.
 */
module SortTxns {

  /** The two fields of an event log the comparator reads. */
  datatype Txn = Txn(blockNumber: int, transactionIndex: int)

  /** Lexicographic order on (block number, transaction index). */
  predicate OccurredBefore(a: Txn, b: Txn) {
    a.blockNumber < b.blockNumber || (a.blockNumber == b.blockNumber && a.transactionIndex < b.transactionIndex)
  }

  /** -1 when `txn1` comes first, 1 when `txn2` does; never 0, even for two logs at the same position. */
  function SortTxns(txn1: Txn, txn2: Txn): (r: int)
    ensures r == 1 || r == -1
    ensures txn1.blockNumber != txn2.blockNumber ==> (r == 1 <==> txn1.blockNumber > txn2.blockNumber)
    ensures txn1.blockNumber == txn2.blockNumber ==> (r == 1 <==> txn1.transactionIndex > txn2.transactionIndex)
    ensures txn1 != txn2 ==> (r == -1 <==> OccurredBefore(txn1, txn2))
  {
    if txn1.blockNumber == txn2.blockNumber then
      (if txn1.transactionIndex > txn2.transactionIndex then 1 else -1)
    else if txn1.blockNumber > txn2.blockNumber then 1 else -1
  }

  /** On two logs at different positions the comparator is antisymmetric. */
  lemma AntisymmetricOnDistinct(a: Txn, b: Txn)
    requires a != b
    ensures SortTxns(a, b) == -SortTxns(b, a)
  {
  }

  /** On two logs at the same position both argument orders claim the first one is earlier. */
  lemma TieIsNotAntisymmetric(a: Txn, b: Txn)
    requires a == b
    ensures SortTxns(a, b) == -1 && SortTxns(b, a) == -1
  {
  }

  /** The order the comparator induces on distinct logs is transitive. */
  lemma TransitiveOnDistinct(a: Txn, b: Txn, c: Txn)
    requires a != b && b != c
    requires SortTxns(a, b) == -1 && SortTxns(b, c) == -1
    ensures a != c && SortTxns(a, c) == -1
  {
  }
}
