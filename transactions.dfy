/**
 * The transaction list that forms a block's payload (`BlockTransactions`,
 * dpc/src/block/transactions.rs): the transaction entity it aggregates, the
 * network parameters it reads, its aggregate queries and the block-level
 * validity predicate those queries feed.
 */
module Transactions {
  import opened Wrappers
  import opened Sequences

  type Byte = bv8
  type SerialNumber = seq<Byte>
  type Commitment = seq<Byte>
  type Root = seq<Byte>

  /**
   * What the list reads of one transaction. Validity, serial numbers,
   * commitments and value balance come from the proof system and are taken
   * as given; `idBytes` is the little-endian encoding of the transaction id,
   * or None when computing or encoding the id fails.
   */
  datatype Transaction = Transaction(
    valid: bool,
    serialNumbers: seq<SerialNumber>,
    commitments: seq<Commitment>,
    valueBalance: int,
    idBytes: Option<seq<Byte>>)

  /**
   * The network parameters `N`: how many coinbase transactions a block must
   * hold, and the transactions Merkle tree over its parameters, which builds
   * a root from leaves or fails.
   */
  datatype Network = Network(
    coinbaseTxCount: nat,
    transactionsTree: seq<seq<Byte>> -> Option<Root>)

  datatype Error =
    | InvalidTransaction   // push of a transaction that is not valid
    | NoFeePayer           // no member with a non-negative value balance
    | NoValueBalance       // reduce over no balances at all
    | TransactionIdFailed  // a member's id could not be computed or encoded
    | MerkleTreeFailed     // the Merkle tree could not be built
    | EncodeFailed         // a member could not be written
    | DecodeFailed         // the input did not hold a transaction list

  /** A coinbase transaction creates value: its value balance is negative. */
  predicate IsCoinbase(t: Transaction) {
    t.valueBalance < 0
  }

  function SerialNumbersOf(t: Transaction): seq<SerialNumber> { t.serialNumbers }
  function CommitmentsOf(t: Transaction): seq<Commitment> { t.commitments }
  function SerialNumberCount(t: Transaction): int { |t.serialNumbers| }
  function CommitmentCount(t: Transaction): int { |t.commitments| }

  /** `to_serial_numbers`: every member's serial numbers, in member order, duplicates kept. */
  function ToSerialNumbers(txs: seq<Transaction>): (r: seq<SerialNumber>)
    requires |txs| > 0
    ensures forall sn :: sn in r <==> exists i :: 0 <= i < |txs| && sn in txs[i].serialNumbers
    ensures |r| == SumOf(txs, SerialNumberCount)
  {
    FlatMapMembers(txs, SerialNumbersOf);
    FlatMapLength(txs, SerialNumbersOf, SerialNumberCount);
    FlatMap(txs, SerialNumbersOf)
  }

  /** `to_commitments`: every member's commitments, in member order, duplicates kept. */
  function ToCommitments(txs: seq<Transaction>): (r: seq<Commitment>)
    requires |txs| > 0
    ensures forall cm :: cm in r <==> exists i :: 0 <= i < |txs| && cm in txs[i].commitments
    ensures |r| == SumOf(txs, CommitmentCount)
  {
    FlatMapMembers(txs, CommitmentsOf);
    FlatMapLength(txs, CommitmentsOf, CommitmentCount);
    FlatMap(txs, CommitmentsOf)
  }

  /** `to_coinbase_transaction_count`: how many members have a negative value balance. */
  function CoinbaseCount(txs: seq<Transaction>): (r: nat)
    ensures r <= |txs|
    ensures r == 0 <==> forall i :: 0 <= i < |txs| ==> !IsCoinbase(txs[i])
    ensures r == |txs| <==> forall i :: 0 <= i < |txs| ==> IsCoinbase(txs[i])
  {
    if txs == [] then 0
    else
      assert forall i :: 1 <= i < |txs| ==> txs[i] == txs[1..][i - 1];
      (if IsCoinbase(txs[0]) then 1 else 0) + CoinbaseCount(txs[1..])
  }

  /** Appending one member raises the coinbase count by one if it is a coinbase, else not at all. */
  lemma {:induction false} CoinbaseCountAppend(txs: seq<Transaction>, t: Transaction)
    ensures CoinbaseCount(txs + [t]) == CoinbaseCount(txs) + (if IsCoinbase(t) then 1 else 0)
  {
    if txs == [] {
      assert [] + [t] == [t];
    } else {
      assert (txs + [t])[1..] == txs[1..] + [t];
      CoinbaseCountAppend(txs[1..], t);
    }
  }

  /** Member `i` is the list's only coinbase. */
  predicate SoleCoinbase(txs: seq<Transaction>, i: int) {
    && 0 <= i < |txs| && IsCoinbase(txs[i])
    && forall j :: 0 <= j < |txs| && j != i ==> !IsCoinbase(txs[j])
  }

  /** The coinbase count is exactly one iff a single member is a coinbase. */
  lemma CoinbaseCountOne(txs: seq<Transaction>)
    ensures CoinbaseCount(txs) == 1 <==> exists i :: SoleCoinbase(txs, i)
  {
    if CoinbaseCount(txs) == 1 {
      var i :| 0 <= i < |txs| && IsCoinbase(txs[i]);
      CoinbaseCountAround(txs, i);
      assert SoleCoinbase(txs, i) by {
        forall j | 0 <= j < |txs| && j != i
          ensures !IsCoinbase(txs[j])
        {
          if j < i {
            assert txs[..i][j] == txs[j];
          } else {
            assert txs[i + 1..][j - i - 1] == txs[j];
          }
        }
      }
    }
    if exists i :: SoleCoinbase(txs, i) {
      var i :| SoleCoinbase(txs, i);
      CoinbaseCountAround(txs, i);
      assert forall j :: 0 <= j < i ==> txs[..i][j] == txs[j];
      assert forall j :: i + 1 <= j < |txs| ==> txs[i + 1..][j - i - 1] == txs[j];
    }
  }

  /** The count of a list is the count before member `i`, member `i`'s mark, and the count after. */
  lemma {:induction false} CoinbaseCountAround(txs: seq<Transaction>, i: int)
    requires 0 <= i < |txs|
    ensures CoinbaseCount(txs) ==
      CoinbaseCount(txs[..i]) + (if IsCoinbase(txs[i]) then 1 else 0) + CoinbaseCount(txs[i + 1..])
  {
    var before, tail := txs[..i], [txs[i]] + txs[i + 1..];
    assert txs == before + tail;
    CoinbaseCountSplit(before, tail);
    assert tail != [] && tail[0] == txs[i] && tail[1..] == txs[i + 1..];
  }

  /** Reordering the members leaves the coinbase count unchanged. */
  lemma {:induction false} CoinbaseCountPermutation(a: seq<Transaction>, b: seq<Transaction>)
    requires multiset(a) == multiset(b)
    ensures CoinbaseCount(a) == CoinbaseCount(b)
  {
    if a == [] {
      assert |b| == |multiset(b)| == 0;
    } else {
      var x := a[0];
      assert x in multiset(b);
      var k :| 0 <= k < |b| && b[k] == x;
      var rest := b[..k] + b[k + 1..];
      assert a == [x] + a[1..];
      assert b == b[..k] + [x] + b[k + 1..];
      assert multiset(rest) == multiset(b[..k]) + multiset(b[k + 1..]);
      assert multiset(a[1..]) == multiset(a) - multiset{x};
      assert multiset(rest) == multiset(b) - multiset{x};
      CoinbaseCountPermutation(a[1..], rest);
      CoinbaseCountAround(b, k);
      CoinbaseCountSplit(b[..k], b[k + 1..]);
    }
  }

  lemma {:induction false} CoinbaseCountSplit(a: seq<Transaction>, b: seq<Transaction>)
    ensures CoinbaseCount(a + b) == CoinbaseCount(a) + CoinbaseCount(b)
  {
    if a == [] {
      assert a + b == b;
    } else {
      assert (a + b)[1..] == a[1..] + b;
      CoinbaseCountSplit(a[1..], b);
    }
  }

  /** What a member contributes to the fees: its balance unless it is a coinbase. */
  function Fee(t: Transaction): int { if IsCoinbase(t) then 0 else t.valueBalance }

  /** What a member mints: its (negative) balance if it is a coinbase. */
  function Minted(t: Transaction): int { if IsCoinbase(t) then t.valueBalance else 0 }

  function ValueBalance(t: Transaction): int { t.valueBalance }

  /** The `filter_map` of `to_transaction_fees`: the non-negative balances, in member order. */
  function FeePayments(txs: seq<Transaction>): (r: seq<int>)
    ensures |r| + CoinbaseCount(txs) == |txs|
    ensures forall v :: v in r ==> v >= 0
  {
    if txs == [] then []
    else (if IsCoinbase(txs[0]) then [] else [txs[0].valueBalance]) + FeePayments(txs[1..])
  }

  /** The fee payments add up to the members' fees, which are never negative. */
  lemma {:induction false} FeePaymentsSum(txs: seq<Transaction>)
    ensures Sum(FeePayments(txs)) == SumOf(txs, Fee) >= 0
  {
    if txs != [] {
      FeePaymentsSum(txs[1..]);
      var head := if IsCoinbase(txs[0]) then [] else [txs[0].valueBalance];
      var s := head + FeePayments(txs[1..]);
      if head != [] {
        assert s[0] == txs[0].valueBalance && s[1..] == FeePayments(txs[1..]);
      } else {
        assert s == FeePayments(txs[1..]);
      }
    }
  }

  /**
   * `to_transaction_fees`: the sum of the non-negative balances; an error
   * exactly when no member has one (an empty list included).
   */
  function ToTransactionFees(txs: seq<Transaction>): (r: Result<int, Error>)
    ensures r.Ok? <==> exists i :: 0 <= i < |txs| && !IsCoinbase(txs[i])
    ensures r.Ok? ==> r.value == SumOf(txs, Fee) && r.value >= 0
    ensures r.Err? ==> r.error == NoFeePayer
  {
    FeePaymentsSum(txs);
    var total := Reduce(FeePayments(txs));
    if total.Some? then Ok(total.value) else Err(NoFeePayer)
  }

  /** The `map` of `to_net_value_balance`: every member's balance, in member order. */
  function Balances(txs: seq<Transaction>): (r: seq<int>)
    ensures |r| == |txs|
  {
    if txs == [] then [] else [txs[0].valueBalance] + Balances(txs[1..])
  }

  lemma {:induction false} BalancesSum(txs: seq<Transaction>)
    ensures Sum(Balances(txs)) == SumOf(txs, ValueBalance)
  {
    if txs != [] {
      BalancesSum(txs[1..]);
      var s := Balances(txs);
      assert s[0] == txs[0].valueBalance && s[1..] == Balances(txs[1..]);
    }
  }

  /** `to_net_value_balance`: the sum of all members' value balances, coinbase included. */
  function ToNetValueBalance(txs: seq<Transaction>): (r: Result<int, Error>)
    requires |txs| > 0
    ensures r == Ok(SumOf(txs, ValueBalance))
  {
    BalancesSum(txs);
    var total := Reduce(Balances(txs));
    if total.Some? then Ok(total.value) else Err(NoValueBalance)
  }

  /**
   * Every balance is either a fee or minted value, so the net balance is the
   * fees plus the minted total, and the minted total is negative exactly
   * when there is a coinbase member.
   */
  lemma {:induction false} NetIsFeesPlusMinted(txs: seq<Transaction>)
    ensures SumOf(txs, ValueBalance) == SumOf(txs, Fee) + SumOf(txs, Minted)
    ensures SumOf(txs, Minted) <= 0
    ensures SumOf(txs, Minted) < 0 <==> CoinbaseCount(txs) > 0
  {
    if txs != [] {
      NetIsFeesPlusMinted(txs[1..]);
    }
  }

  /** When a fee payer exists, the net value balance is the fees plus the coinbase balances. */
  lemma NetValueBalanceDecomposes(txs: seq<Transaction>)
    requires |txs| > 0 && ToTransactionFees(txs).Ok?
    ensures ToNetValueBalance(txs).value == ToTransactionFees(txs).value + SumOf(txs, Minted)
  {
    NetIsFeesPlusMinted(txs);
  }

  /**
   * The `assert_eq!(id_bytes.len(), 32)` of `to_transactions_root` holds: the
   * ids are taken in member order and collecting stops at the first failed
   * id, so every id before that failure is 32 bytes long.
   */
  predicate IdsChecked(txs: seq<Transaction>) {
    if txs == [] then true
    else match txs[0].idBytes
      case None => true
      case Some(id) => |id| == 32 && IdsChecked(txs[1..])
  }

  /** The Merkle leaves: one 32-byte id per member, in member order, or the id failure. */
  function TransactionIds(txs: seq<Transaction>): (r: Result<seq<seq<Byte>>, Error>)
    requires IdsChecked(txs)
    ensures r.Ok? <==> forall i :: 0 <= i < |txs| ==> txs[i].idBytes.Some?
    ensures r.Ok? ==> |r.value| == |txs|
    ensures r.Ok? ==> forall i :: 0 <= i < |txs| ==> r.value[i] == txs[i].idBytes.value && |r.value[i]| == 32
    ensures r.Err? ==> r.error == TransactionIdFailed
  {
    if txs == [] then Ok([])
    else
      assert forall i :: 1 <= i < |txs| ==> txs[i] == txs[1..][i - 1];
      match txs[0].idBytes
      case None => Err(TransactionIdFailed)
      case Some(id) =>
        match TransactionIds(txs[1..])
        case Err(e) => Err(e)
        case Ok(ids) => Ok([id] + ids)
  }

  /**
   * `to_transactions_root`: the root of the transactions Merkle tree over the
   * members' ids; an error if an id or the tree cannot be computed.
   */
  function ToTransactionsRoot(network: Network, txs: seq<Transaction>): (r: Result<Root, Error>)
    requires |txs| > 0 && IdsChecked(txs)
    ensures (exists i :: 0 <= i < |txs| && txs[i].idBytes.None?) ==> r == Err(TransactionIdFailed)
  {
    match TransactionIds(txs)
    case Err(e) => Err(e)
    case Ok(ids) =>
      match network.transactionsTree(ids)
      case None => Err(MerkleTreeFailed)
      case Some(root) => Ok(root)
  }

  /**
   * The tree receives exactly one leaf per member, that member's id, in
   * member order: the root is determined by the ordered id sequence.
   */
  lemma RootOfLeaves(network: Network, txs: seq<Transaction>, leaves: seq<seq<Byte>>)
    requires |txs| > 0 && IdsChecked(txs)
    requires |leaves| == |txs| && forall i :: 0 <= i < |txs| ==> txs[i].idBytes == Some(leaves[i])
    ensures ToTransactionsRoot(network, txs) ==
      match network.transactionsTree(leaves)
      case None => Err(MerkleTreeFailed)
      case Some(root) => Ok(root)
  {
    var ids := TransactionIds(txs);
    assert ids.Ok?;
    assert ids.value == leaves;
  }

  /** Two lists with the same ids in the same order have the same root. */
  lemma RootDependsOnlyOnIds(network: Network, a: seq<Transaction>, b: seq<Transaction>)
    requires |a| > 0 && IdsChecked(a) && IdsChecked(b)
    requires |a| == |b| && forall i :: 0 <= i < |a| ==> a[i].idBytes == b[i].idBytes
    ensures ToTransactionsRoot(network, a) == ToTransactionsRoot(network, b)
  {
    var ia, ib := TransactionIds(a), TransactionIds(b);
    if ia.Ok? {
      assert ib.Ok?;
      assert ia.value == ib.value;
    } else {
      var k :| 0 <= k < |a| && a[k].idBytes.None?;
      assert b[k].idBytes.None?;
    }
  }

  /**
   * `is_valid`: every member is valid, no serial number and no commitment
   * occurs twice in the flattened lists, and the number of coinbase members
   * is the network's required count. Defined for a non-empty list only.
   */
  predicate IsWellFormed(network: Network, txs: seq<Transaction>)
    requires |txs| > 0
  {
    && (forall i :: 0 <= i < |txs| ==> txs[i].valid)
    && !HasDuplicates(ToSerialNumbers(txs))
    && !HasDuplicates(ToCommitments(txs))
    && CoinbaseCount(txs) == network.coinbaseTxCount
  }

  /** Two different members spending the same serial number make the list a double spend. */
  lemma DoubleSpendRejected(network: Network, txs: seq<Transaction>, i: int, j: int, sn: SerialNumber)
    requires 0 <= i < |txs| && 0 <= j < |txs| && i != j
    requires sn in txs[i].serialNumbers && sn in txs[j].serialNumbers
    ensures HasDuplicates(ToSerialNumbers(txs)) && !IsWellFormed(network, txs)
  {
    SharedAcrossMembers(txs, SerialNumbersOf, i, j, sn);
  }

  /** Two different members creating the same commitment make the list invalid. */
  lemma CommitmentReuseRejected(network: Network, txs: seq<Transaction>, i: int, j: int, cm: Commitment)
    requires 0 <= i < |txs| && 0 <= j < |txs| && i != j
    requires cm in txs[i].commitments && cm in txs[j].commitments
    ensures HasDuplicates(ToCommitments(txs)) && !IsWellFormed(network, txs)
  {
    SharedAcrossMembers(txs, CommitmentsOf, i, j, cm);
  }

  lemma SharedAcrossMembers<T>(txs: seq<Transaction>, f: Transaction -> seq<T>, i: int, j: int, y: T)
    requires 0 <= i < |txs| && 0 <= j < |txs| && i != j
    requires y in f(txs[i]) && y in f(txs[j])
    ensures HasDuplicates(FlatMap(txs, f))
  {
    var lo, hi := if i < j then i else j, if i < j then j else i;
    assert txs == txs[..hi] + txs[hi..];
    FlatMapAppend(txs[..hi], txs[hi..], f);
    FlatMapMembers(txs[..hi], f);
    FlatMapMembers(txs[hi..], f);
    assert txs[..hi][lo] == txs[lo] && txs[hi..][0] == txs[hi];
    assert y in FlatMap(txs[..hi], f) && y in FlatMap(txs[hi..], f);
    HasDuplicatesAppend(FlatMap(txs[..hi], f), FlatMap(txs[hi..], f));
  }

  /** The flattening of a grown list has duplicates iff the old one has, the new list has, or they share a value. */
  lemma FlatMapAppendDuplicates<T>(txs: seq<Transaction>, t: Transaction, f: Transaction -> seq<T>)
    ensures HasDuplicates(FlatMap(txs + [t], f)) <==>
      HasDuplicates(FlatMap(txs, f)) || HasDuplicates(f(t)) || exists y :: y in f(t) && y in FlatMap(txs, f)
  {
    assert FlatMap([t], f) == f(t) by {
      assert [t][1..] == [];
    }
    FlatMapAppend(txs, [t], f);
    HasDuplicatesAppend(FlatMap(txs, f), f(t));
  }

  /**
   * Validity of a list grown by one member, in terms of the list before:
   * the new member is valid, brings no serial number or commitment twice or
   * already present, and the coinbase count still comes out right.
   */
  lemma WellFormedAppend(network: Network, txs: seq<Transaction>, t: Transaction)
    requires |txs| > 0
    ensures IsWellFormed(network, txs + [t]) <==>
      && (forall i :: 0 <= i < |txs| ==> txs[i].valid) && t.valid
      && !HasDuplicates(ToSerialNumbers(txs)) && !HasDuplicates(t.serialNumbers)
      && (forall sn :: sn in t.serialNumbers ==> sn !in ToSerialNumbers(txs))
      && !HasDuplicates(ToCommitments(txs)) && !HasDuplicates(t.commitments)
      && (forall cm :: cm in t.commitments ==> cm !in ToCommitments(txs))
      && CoinbaseCount(txs) + (if IsCoinbase(t) then 1 else 0) == network.coinbaseTxCount
  {
    var grown := txs + [t];
    FlatMapAppendDuplicates(txs, t, SerialNumbersOf);
    FlatMapAppendDuplicates(txs, t, CommitmentsOf);
    CoinbaseCountAppend(txs, t);
    assert (forall i :: 0 <= i < |grown| ==> grown[i].valid) <==>
      (forall i :: 0 <= i < |txs| ==> txs[i].valid) && t.valid by {
      assert grown[|txs|] == t;
      assert forall i :: 0 <= i < |txs| ==> grown[i] == txs[i];
    }
  }

  /**
   * Block validity does not depend on the order of the members: any
   * reordering of a list is valid exactly when the list is.
   */
  lemma WellFormedPermutation(network: Network, a: seq<Transaction>, b: seq<Transaction>)
    requires |a| > 0 && multiset(a) == multiset(b)
    ensures |b| > 0 && (IsWellFormed(network, a) <==> IsWellFormed(network, b))
  {
    assert |b| == |multiset(b)| == |multiset(a)| == |a|;
    FlatMapPermutation(a, b, SerialNumbersOf);
    FlatMapPermutation(a, b, CommitmentsOf);
    HasDuplicatesPermutation(ToSerialNumbers(a), ToSerialNumbers(b));
    HasDuplicatesPermutation(ToCommitments(a), ToCommitments(b));
    CoinbaseCountPermutation(a, b);
    assert (forall i :: 0 <= i < |a| ==> a[i].valid) <==> (forall i :: 0 <= i < |b| ==> b[i].valid) by {
      forall i | 0 <= i < |b| && (forall k :: 0 <= k < |a| ==> a[k].valid)
        ensures b[i].valid
      {
        assert b[i] in multiset(a);
      }
      forall i | 0 <= i < |a| && (forall k :: 0 <= k < |b| ==> b[k].valid)
        ensures a[i].valid
      {
        assert a[i] in multiset(b);
      }
    }
  }

  /**
   * The amounts of a block with one coinbase of -10 and two payers of 2
   * and 3: fees 5, net balance -5, one coinbase.
   */
  lemma FeeAndBalanceExample(coinbase: Transaction, p: Transaction, q: Transaction)
    requires coinbase.valueBalance == -10 && p.valueBalance == 2 && q.valueBalance == 3
    ensures ToTransactionFees([coinbase, p, q]) == Ok(5)
    ensures ToNetValueBalance([coinbase, p, q]) == Ok(-5)
    ensures CoinbaseCount([coinbase, p, q]) == 1
  {
    var txs := [coinbase, p, q];
    assert txs[1..] == [p, q] && [p, q][1..] == [q] && [q][1..] == [];
    assert !IsCoinbase(txs[1]);
    assert Fee(coinbase) == 0 && Fee(p) == 2 && Fee(q) == 3;
    assert SumOf([q], Fee) == 3;
    assert SumOf([p, q], Fee) == Fee(p) + SumOf([q], Fee);
    assert SumOf([q], ValueBalance) == 3 && SumOf([p, q], ValueBalance) == 5;
  }
}
