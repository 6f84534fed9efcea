# BlockTransactions — a Dafny model

This project models `BlockTransactions`, the ordered list of transactions that forms the payload
of a block in snarkVM's ledger (`dpc/src/block/transactions.rs`). The model covers how the list is
built (`new`, `from`, `push`), the block-level validity check (`is_valid`), the aggregate
queries, and the wire and text codecs. It proves the ledger rules these operations implement:
no serial number is spent twice, no commitment is created twice, the block holds exactly the
network's number of coinbase transactions, and fees and net balance add up.

Files and modules:

- `transactions.dfy`, module `Transactions`: the `Transaction` entity as the list sees it
  (validity, serial numbers, commitments, value balance, id bytes), the network parameters
  (`coinbaseTxCount` for `N::BLOCK_COINBASE_TX_COUNT`, and the transactions Merkle tree as a
  function from leaves to an optional root). It also holds the pure queries (`to_serial_numbers`,
  `to_commitments`, `to_coinbase_transaction_count`, `to_transaction_fees`,
  `to_net_value_balance`, `to_transactions_root`), the well-formedness predicate `is_valid`
  decides, and the lemmas about them.
- `block.dfy`, module `Block`: class `BlockTransactions` with the list as a `seq` field that
  `Push` reassigns. It has the constructors `New` (also `Default`) and `From`, the gated `Push`,
  and the methods `IsValid` (the loop with early exit), `WriteLe` and `ReadLe`.
- `serialization.dfy`, module `Serialization`: the wire format (a variable-length count, then
  each member's bytes), its reader, the round-trip theorem and `serialize_as_str`.
- `sequences.dfy`, module `Sequences`: duplicate detection (`has_duplicates`), flattening,
  sums and the left fold that `Iterator::reduce` performs with `add`.
- `hex.dfy`, module `Hex`: lowercase hexadecimal for `hex::encode`, with a decoder for its
  round trip.
- `wrappers.dfy`, module `Wrappers`: `Option` and `Result`.

The source's panics are preconditions. The `assert!(!self.0.is_empty())` of
`to_serial_numbers`, `to_commitments`, `to_net_value_balance` and `to_transactions_root` becomes
`requires |txs| > 0`. `is_valid` reaches that assertion on an empty list, so `IsValid` has the
same precondition. The `assert_eq!(id_bytes.len(), 32)` of `to_transactions_root` becomes
`requires IdsChecked(txs)`: every id computed before the first failed one is 32 bytes long,
because collecting the ids stops at the first error. `to_transaction_fees` has no such
assertion. On an empty list, or a list of coinbase transactions only, it returns the error.
This follows the code, not a design that would treat fees on an empty list as a contract
violation.

The cryptographic collaborators are parameters, not guesses. A transaction's validity, serial
numbers, commitments and value balance are fields of the `Transaction` value. The Merkle tree is
`Network.transactionsTree`. The variable-length integer codec and each transaction's byte codec
are the four functions of a `Codec`. The round-trip theorem assumes, through the predicate
`RoundTrips`, that those codecs read back what they wrote.

## Model

| member | source | states |
|---|---|---|
| `Block.BlockTransactions.New` | dpc/src/block/transactions.rs:38-41 | a new list is empty (`Default` is the same constructor, lines 204-208) |
| `Block.BlockTransactions.From` | dpc/src/block/transactions.rs:43-46 | the list is the given transactions verbatim, with no validity check |
| `Block.BlockTransactions.Push` | dpc/src/block/transactions.rs:48-54 | succeeds exactly when the transaction is valid; then the list is the old list with it appended at the end, otherwise the list is unchanged and the error is `InvalidTransaction`; the coinbase count rises by at most one |
| `Block.BlockTransactions.IsValid` | dpc/src/block/transactions.rs:56-107 | on a non-empty list, returns true exactly when every member is valid, the flattened serial numbers and commitments have no duplicates and the coinbase count equals the network's |
| `Block.BlockTransactions.WriteLe` | dpc/src/block/transactions.rs:193-202 | the output is the count's encoding followed by every member's bytes in order; it fails with `EncodeFailed` exactly when some member cannot be written |
| `Block.BlockTransactions.ReadLe` | dpc/src/block/transactions.rs:181-191 | fails with `DecodeFailed` exactly when the count or one of the counted transactions cannot be read; otherwise a fresh list with exactly the transactions read, in order, and the remaining input |
| `Transactions.ToSerialNumbers` | dpc/src/block/transactions.rs:137-141 | a serial number is in the result iff some member has it; the length is the sum of the members' counts (duplicates kept) |
| `Transactions.ToCommitments` | dpc/src/block/transactions.rs:131-135 | a commitment is in the result iff some member has it; the length is the sum of the members' counts (duplicates kept) |
| `Sequences.FlatMapSplit` | dpc/src/block/transactions.rs:134-140 | the flattening keeps member order: member i's list appears whole, right after the lists of the members before it |
| `Sequences.FlatMapPermutation` | dpc/src/block/transactions.rs:134-140 | reordering the members only permutes the flattened list |
| `Sequences.HasDuplicatesAppend` | dpc/src/block/transactions.rs:70-84 | a concatenation has a duplicate iff one side has one or the two sides share a value |
| `Sequences.HasDuplicatesPermutation` | dpc/src/block/transactions.rs:70-84 | whether a list has a duplicate depends only on its multiset of elements |
| `Transactions.DoubleSpendRejected` | dpc/src/block/transactions.rs:67-79 | two different members with a common serial number make the serial-number list have a duplicate, so the block is not valid |
| `Transactions.CommitmentReuseRejected` | dpc/src/block/transactions.rs:81-93 | two different members with a common commitment make the commitment list have a duplicate, so the block is not valid |
| `Transactions.WellFormedAppend` | dpc/src/block/transactions.rs:56-107 | a list grown by one member is valid iff the old list's members are valid and duplicate-free, the new member is valid, repeats none of its own and brings no serial number or commitment already present, and the coinbase count including it is the network's |
| `Transactions.WellFormedPermutation` | dpc/src/block/transactions.rs:56-107 | block validity does not depend on member order: any permutation of the members is valid exactly when the list is |
| `Transactions.CoinbaseCount` | dpc/src/block/transactions.rs:144-147 | the count is at most the list length; it is zero iff no member has a negative balance, and equals the length iff all do |
| `Transactions.CoinbaseCountAppend` | dpc/src/block/transactions.rs:144-147 | appending a member raises the count by one if its balance is negative and leaves it unchanged otherwise |
| `Transactions.CoinbaseCountOne` | dpc/src/block/transactions.rs:95-104 | the count is one iff exactly one member has a negative balance |
| `Transactions.CoinbaseCountPermutation` | dpc/src/block/transactions.rs:144-147 | the count does not depend on member order |
| `Transactions.FeePayments` | dpc/src/block/transactions.rs:152-157 | the filtered balances are all non-negative, and there are as many as there are non-coinbase members |
| `Sequences.Reduce` | dpc/src/block/transactions.rs:158-159 | the left fold of `add` yields nothing exactly on an empty input, and otherwise the sum of the elements |
| `Transactions.FeePaymentsSum` | dpc/src/block/transactions.rs:151-160 | the filtered balances add up to the sum of the members' fees, which is never negative |
| `Transactions.ToTransactionFees` | dpc/src/block/transactions.rs:151-160 | succeeds iff some member has a non-negative balance (an error, `NoFeePayer`, on an empty list too); the result is the sum of the non-negative balances and is at least zero |
| `Transactions.ToNetValueBalance` | dpc/src/block/transactions.rs:163-170 | on a non-empty list, the sum of all members' value balances, coinbase included |
| `Transactions.NetIsFeesPlusMinted` | dpc/src/block/transactions.rs:149-170 | the net balance is the fee total plus the minted (negative) total; the minted total is at most zero, and below zero iff there is a coinbase member |
| `Transactions.NetValueBalanceDecomposes` | dpc/src/block/transactions.rs:149-170 | when a fee payer exists, the net value balance equals the transaction fees plus the coinbase balances |
| `Transactions.FeeAndBalanceExample` | dpc/src/block/transactions.rs:144-170 | a coinbase of -10 and payers of 2 and 3 give fees 5, net balance -5 and one coinbase |
| `Transactions.TransactionIds` | dpc/src/block/transactions.rs:112-122 | succeeds iff every member's id can be computed; then exactly one 32-byte leaf per member, that member's id, in member order; otherwise `TransactionIdFailed` |
| `Transactions.ToTransactionsRoot` | dpc/src/block/transactions.rs:110-129 | on a non-empty list, any member whose id cannot be computed makes the result `TransactionIdFailed` |
| `Transactions.RootOfLeaves` | dpc/src/block/transactions.rs:110-129 | when the members' ids are the given leaves, the result is the Merkle tree's root over exactly those leaves in that order, or `MerkleTreeFailed` |
| `Transactions.RootDependsOnlyOnIds` | dpc/src/block/transactions.rs:110-129 | two lists with the same ids in the same order have the same root result |
| `Serialization.WriteMembers` | dpc/src/block/transactions.rs:196-199 | the members' encodings exist iff every member can be written |
| `Serialization.ReadMembers` | dpc/src/block/transactions.rs:185-188 | a successful read of n transactions yields exactly n |
| `Serialization.DecodeEncode` | dpc/src/block/transactions.rs:181-202 | for round-tripping count and transaction codecs, reading what `write_le` wrote, followed by any bytes, gives back the same members in the same order and leaves exactly those bytes |
| `Serialization.SerializeAsStr` | dpc/src/block/transactions.rs:172-178 | succeeds iff every member can be written; then one string per member, in member order, each the hex of that member's bytes; otherwise `EncodeFailed` |
| `Serialization.SerializeAsStrAgreesWithWire` | dpc/src/block/transactions.rs:172-202 | the text form exists exactly when the wire form does |
| `Serialization.SerializedStringsDecode` | dpc/src/block/transactions.rs:172-178 | each string of the text form decodes from hex to bytes that the transaction reader turns back into that same member |
| `Hex.Encode` | dpc/src/block/transactions.rs:176 | two lowercase digits per byte, high nibble first |
| `Hex.DecodeEncode` | dpc/src/block/transactions.rs:176 | hex text decodes back to the bytes it was made from |

## Left out

- `synthesizer/src/vm/authorize.rs` is not part of this model. It is a dispatch layer that
  forwards to the proving engine's `Process::authorize`, which is not shown, and it has no logic
  of its own.
- Transaction internals: `Transaction::is_valid`, `to_transaction_id`, `serial_numbers`,
  `commitments` and `value_balance` rest on zero-knowledge proof verification. They are given
  fields of `Transaction`. `idBytes` is None when computing or encoding the id fails.
- Merkle tree construction (lines 124-128) is a foreign cryptographic library. It is the
  function `Network.transactionsTree`. The root is proved to depend only on the ordered ids. That
  reordering changes the root is not proved, because it rests on collision resistance.
- Byte layouts of the variable-length integer and of each transaction's encoding: these live in
  libraries that are not shown. They are the functions of `Codec`, and the round trip is
  assumed through `RoundTrips`.
- `has_duplicates` (a utility that is not shown) is the predicate `HasDuplicates`: some value
  occurs at two different positions.
- The `eprintln!` diagnostics of `is_valid` are output only. The model keeps the boolean result.
- Balances are unbounded integers. The overflow behaviour of `AleoAmount::add` is not shown and
  is not modelled.
- `Deref`/`DerefMut` to `Vec` (lines 210-222) allow any change to the list, bypassing `push`'s
  gate. They are not modelled, so the "every pushed member is valid" gate holds only through
  `Push`.
- Readers and writers are byte sequences. `WriteLe` returns all of its output or an error,
  not the partial output a failing writer would have received. On an error, `ReadLe` does not
  specify what remains of the reader.
- `Vec::with_capacity` failing to allocate for a huge decoded count is not modelled.
- `to_serial_numbers` and `to_commitments` return a `Result` that is always `Ok` once their
  assertion passes. They are modelled as plain sequences, so the two `Err` arms of `is_valid`,
  which can never run, are left out. For the same reason `ToNetValueBalance`'s
  `NoValueBalance` error is never produced.
- The commented idea of checking members in parallel (line 58) is not in the code and is not
  modelled.
- `Block.BlockTransactions.WriteLe`: requires the member count to be below 2^64, the range of
  the `u64` the length is cast to.
