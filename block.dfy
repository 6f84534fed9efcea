/**
 * `BlockTransactions`: the mutable list of transactions that forms a
 * block's payload, with its gated `push`, its validity check and its wire
 * codec. The aggregate queries are the functions of module Transactions,
 * applied to `transactions`.
 */
module Block {
  import opened Wrappers
  import opened Sequences
  import opened Transactions
  import opened Serialization

  class BlockTransactions {
    /** The network parameters, the type parameter `N` of the source. */
    const network: Network
    /** The wrapped `Vec<Transaction<N>>`, in member order. */
    var transactions: seq<Transaction>

    /** `new`, and `Default`: an empty list. */
    constructor New(network: Network)
      ensures this.network == network && transactions == []
    {
      this.network := network;
      transactions := [];
    }

    /** `from`: the given transactions, copied verbatim and not checked. */
    constructor From(network: Network, transactions: seq<Transaction>)
      ensures this.network == network && this.transactions == transactions
    {
      this.network := network;
      this.transactions := transactions;
    }

    /**
     * `push`: appends the transaction at the end when it is valid on its
     * own; otherwise fails and leaves the list as it was.
     */
    method Push(transaction: Transaction) returns (r: Result<(), Error>)
      modifies this
      ensures r.Ok? <==> transaction.valid
      ensures r.Err? ==> r.error == InvalidTransaction
      ensures transactions == if transaction.valid then old(transactions) + [transaction] else old(transactions)
      ensures CoinbaseCount(transactions) <= CoinbaseCount(old(transactions)) + 1
    {
      if transaction.valid {
        CoinbaseCountAppend(transactions, transaction);
        transactions := transactions + [transaction];
        r := Ok(());
      } else {
        r := Err(InvalidTransaction);
      }
    }

    /**
     * `is_valid`: checks every member, then the flattened serial numbers and
     * commitments for duplicates, then the coinbase count, stopping at the
     * first failure. The list must not be empty.
     */
    method IsValid() returns (ok: bool)
      requires |transactions| > 0
      ensures ok == IsWellFormed(network, transactions)
    {
      for i := 0 to |transactions|
        invariant forall k :: 0 <= k < i ==> transactions[k].valid
      {
        if !transactions[i].valid {
          return false;
        }
      }
      var serialNumbers := ToSerialNumbers(transactions);
      if HasDuplicates(serialNumbers) {
        return false;
      }
      var commitments := ToCommitments(transactions);
      if HasDuplicates(commitments) {
        return false;
      }
      var numCoinbase := CoinbaseCount(transactions);
      if numCoinbase != network.coinbaseTxCount {
        return false;
      }
      return true;
    }

    /** `write_le`: the member count, then each member's bytes in order. */
    method WriteLe(codec: Codec) returns (r: Result<seq<Byte>, Error>)
      requires |transactions| < U64_LIMIT
      ensures r.Ok? <==> Encoding(codec, transactions).Some?
      ensures r.Ok? ==> r.value == Encoding(codec, transactions).value
      ensures r.Err? ==> r.error == EncodeFailed
    {
      var out := codec.writeCount(|transactions|);
      for i := 0 to |transactions|
        invariant WriteMembers(codec, transactions[..i]).Some?
        invariant out == codec.writeCount(|transactions|) + WriteMembers(codec, transactions[..i]).value
      {
        var bytes := codec.writeTransaction(transactions[i]);
        if bytes.None? {
          return Err(EncodeFailed);
        }
        WriteMembersAppend(codec, transactions[..i], transactions[i]);
        assert transactions[..i + 1] == transactions[..i] + [transactions[i]];
        out := out + bytes.value;
      }
      assert transactions[..|transactions|] == transactions;
      return Ok(out);
    }

    /**
     * `read_le`: reads the count, then exactly that many transactions, into
     * a new list; `rest` is what the reader holds afterwards.
     */
    static method ReadLe(network: Network, codec: Codec, reader: seq<Byte>)
      returns (r: Result<BlockTransactions, Error>, rest: seq<Byte>)
      ensures Decoding(codec, reader).None? <==> r.Err?
      ensures r.Err? ==> r.error == DecodeFailed
      ensures r.Ok? ==> fresh(r.value) && r.value.network == network
      ensures r.Ok? ==> (r.value.transactions, rest) == Decoding(codec, reader).value
    {
      var count := codec.readCount(reader);
      if count.None? {
        return Err(DecodeFailed), reader;
      }
      var n := count.value.0;
      var bytes := count.value.1;
      var txs: seq<Transaction> := [];
      PrependNothing(ReadMembers(codec, n, bytes));
      for i := 0 to n
        invariant ReadMembers(codec, n, count.value.1) == Prepend(txs, ReadMembers(codec, n - i, bytes))
      {
        var next := codec.readTransaction(bytes);
        if next.None? {
          return Err(DecodeFailed), bytes;
        }
        var t, after := next.value.0, next.value.1;
        assert ReadMembers(codec, n - i, bytes) == Prepend([t], ReadMembers(codec, n - i - 1, after));
        PrependTwice(txs, [t], ReadMembers(codec, n - i - 1, after));
        txs := txs + [t];
        bytes := after;
      }
      assert Prepend(txs, ReadMembers(codec, 0, bytes)) == Some((txs + [], bytes));
      assert txs + [] == txs;
      var block := new BlockTransactions.From(network, txs);
      return Ok(block), bytes;
    }
  }

  /** The members read so far, put in front of what the remaining reads produce. */
  function Prepend(txs: seq<Transaction>, r: Option<(seq<Transaction>, seq<Byte>)>): Option<(seq<Transaction>, seq<Byte>)>
  {
    match r
    case None => None
    case Some((more, rest)) => Some((txs + more, rest))
  }

  lemma PrependNothing(r: Option<(seq<Transaction>, seq<Byte>)>)
    ensures Prepend([], r) == r
  {
    if r.Some? {
      assert [] + r.value.0 == r.value.0;
    }
  }

  lemma PrependTwice(a: seq<Transaction>, b: seq<Transaction>, r: Option<(seq<Transaction>, seq<Byte>)>)
    ensures Prepend(a, Prepend(b, r)) == Prepend(a + b, r)
  {
    if r.Some? {
      assert a + (b + r.value.0) == (a + b) + r.value.0;
    }
  }
}
