/**
 * The wire form of a transaction list (`FromBytes::read_le`,
 * `ToBytes::write_le`) and its text form (`serialize_as_str`). The byte
 * codecs the list delegates to — the variable-length integer for the count
 * and each transaction's own encoding — are parameters.
 */
module Serialization {
  import opened Wrappers
  import opened Transactions
  import Hex

  /** The count is written as a `u64`. */
  const U64_LIMIT: int := 0x1_0000_0000_0000_0000

  /**
   * The codecs the list delegates to. Readers consume a prefix of their
   * input and return what is left; writers of a transaction may fail.
   */
  datatype Codec = Codec(
    writeCount: nat -> seq<Byte>,
    readCount: seq<Byte> -> Option<(nat, seq<Byte>)>,
    writeTransaction: Transaction -> Option<seq<Byte>>,
    readTransaction: seq<Byte> -> Option<(Transaction, seq<Byte>)>)

  /**
   * The delegated codecs are self-delimiting inverses: reading what was
   * written gives back the value and leaves whatever followed untouched.
   */
  ghost predicate RoundTrips(codec: Codec) {
    && (forall n: nat, rest: seq<Byte> :: n < U64_LIMIT ==>
          codec.readCount(codec.writeCount(n) + rest) == Some((n, rest)))
    && (forall t: Transaction, rest: seq<Byte> :: codec.writeTransaction(t).Some? ==>
          codec.readTransaction(codec.writeTransaction(t).value + rest) == Some((t, rest)))
  }

  /** The members' encodings concatenated in order, or None if a member cannot be written. */
  function WriteMembers(codec: Codec, txs: seq<Transaction>): (r: Option<seq<Byte>>)
    ensures r.Some? <==> forall i :: 0 <= i < |txs| ==> codec.writeTransaction(txs[i]).Some?
  {
    if txs == [] then Some([])
    else
      assert forall i :: 1 <= i < |txs| ==> txs[i] == txs[1..][i - 1];
      match (codec.writeTransaction(txs[0]), WriteMembers(codec, txs[1..]))
      case (Some(head), Some(tail)) => Some(head + tail)
      case _ => None
  }

  lemma {:induction false} WriteMembersCons(codec: Codec, txs: seq<Transaction>)
    requires txs != []
    ensures WriteMembers(codec, txs) ==
      if codec.writeTransaction(txs[0]).Some? && WriteMembers(codec, txs[1..]).Some?
      then Some(codec.writeTransaction(txs[0]).value + WriteMembers(codec, txs[1..]).value)
      else None
  {
  }

  lemma {:induction false} WriteMembersAppend(codec: Codec, a: seq<Transaction>, t: Transaction)
    requires WriteMembers(codec, a).Some? && codec.writeTransaction(t).Some?
    ensures WriteMembers(codec, a + [t]) ==
      Some(WriteMembers(codec, a).value + codec.writeTransaction(t).value)
  {
    var bytes := codec.writeTransaction(t).value;
    var grown := a + [t];
    WriteMembersCons(codec, grown);
    if a == [] {
      assert grown == [t] && grown[1..] == [];
      assert WriteMembers(codec, grown) == Some(bytes + []);
      assert bytes + [] == [] + bytes == bytes;
    } else {
      assert grown[0] == a[0] && grown[1..] == a[1..] + [t];
      WriteMembersCons(codec, a);
      var head := codec.writeTransaction(a[0]).value;
      WriteMembersAppend(codec, a[1..], t);
      var tail := WriteMembers(codec, a[1..]).value;
      assert WriteMembers(codec, grown) == Some(head + (tail + bytes));
      assert head + (tail + bytes) == (head + tail) + bytes;
    }
  }

  /** `write_le`: the member count as a variable-length integer, then every member's bytes. */
  function Encoding(codec: Codec, txs: seq<Transaction>): Option<seq<Byte>>
    requires |txs| < U64_LIMIT
  {
    match WriteMembers(codec, txs)
    case None => None
    case Some(body) => Some(codec.writeCount(|txs|) + body)
  }

  /** Reads exactly `n` transactions one after the other, returning them and what follows. */
  function ReadMembers(codec: Codec, n: nat, bytes: seq<Byte>): (r: Option<(seq<Transaction>, seq<Byte>)>)
    ensures r.Some? ==> |r.value.0| == n
  {
    if n == 0 then Some(([], bytes))
    else
      match codec.readTransaction(bytes)
      case None => None
      case Some((t, after)) =>
        match ReadMembers(codec, n - 1, after)
        case None => None
        case Some((ts, rest)) => Some(([t] + ts, rest))
  }

  /** `read_le`: reads the count, then that many transactions. */
  function Decoding(codec: Codec, bytes: seq<Byte>): Option<(seq<Transaction>, seq<Byte>)>
  {
    match codec.readCount(bytes)
    case None => None
    case Some((n, rest)) => ReadMembers(codec, n, rest)
  }

  lemma {:induction false} ReadWrittenMembers(codec: Codec, txs: seq<Transaction>, rest: seq<Byte>)
    requires RoundTrips(codec) && WriteMembers(codec, txs).Some?
    ensures ReadMembers(codec, |txs|, WriteMembers(codec, txs).value + rest) == Some((txs, rest))
  {
    if txs == [] {
      assert WriteMembers(codec, txs).value + rest == rest;
    } else {
      var head := codec.writeTransaction(txs[0]).value;
      var tail := WriteMembers(codec, txs[1..]).value;
      assert WriteMembers(codec, txs).value + rest == head + (tail + rest);
      assert codec.readTransaction(head + (tail + rest)) == Some((txs[0], tail + rest));
      assert WriteMembers(codec, txs[1..]).Some?;
      ReadWrittenMembers(codec, txs[1..], rest);
      assert ReadMembers(codec, |txs| - 1, tail + rest) == Some((txs[1..], rest));
      assert txs == [txs[0]] + txs[1..];
    }
  }

  /** Reading what `write_le` wrote gives back the same members in the same order. */
  lemma DecodeEncode(codec: Codec, txs: seq<Transaction>, rest: seq<Byte>)
    requires RoundTrips(codec) && |txs| < U64_LIMIT && Encoding(codec, txs).Some?
    ensures Decoding(codec, Encoding(codec, txs).value + rest) == Some((txs, rest))
  {
    var body := WriteMembers(codec, txs).value;
    assert Encoding(codec, txs).value + rest == codec.writeCount(|txs|) + (body + rest);
    assert codec.readCount(codec.writeCount(|txs|) + (body + rest)) == Some((|txs|, body + rest));
    ReadWrittenMembers(codec, txs, rest);
  }

  /**
   * `serialize_as_str`: one lowercase hex string per member, in member
   * order, each the hex of that member's bytes; an error if a member cannot
   * be written.
   */
  function SerializeAsStr(codec: Codec, txs: seq<Transaction>): (r: Result<seq<string>, Error>)
    ensures r.Ok? <==> forall i :: 0 <= i < |txs| ==> codec.writeTransaction(txs[i]).Some?
    ensures r.Ok? ==> |r.value| == |txs|
    ensures r.Ok? ==> forall i :: 0 <= i < |txs| ==>
      r.value[i] == Hex.Encode(codec.writeTransaction(txs[i]).value)
    ensures r.Err? ==> r.error == EncodeFailed
  {
    if txs == [] then Ok([])
    else
      assert forall i :: 1 <= i < |txs| ==> txs[i] == txs[1..][i - 1];
      match codec.writeTransaction(txs[0])
      case None => Err(EncodeFailed)
      case Some(bytes) =>
        match SerializeAsStr(codec, txs[1..])
        case Err(e) => Err(e)
        case Ok(strs) => Ok([Hex.Encode(bytes)] + strs)
  }

  /** The text form exists exactly when the wire form does. */
  lemma SerializeAsStrAgreesWithWire(codec: Codec, txs: seq<Transaction>)
    requires |txs| < U64_LIMIT
    ensures SerializeAsStr(codec, txs).Ok? <==> Encoding(codec, txs).Some?
  {
  }

  /** Each string of the text form decodes back to its own member. */
  lemma SerializedStringsDecode(codec: Codec, txs: seq<Transaction>)
    requires RoundTrips(codec) && SerializeAsStr(codec, txs).Ok?
    ensures forall i :: 0 <= i < |txs| ==>
      Hex.Decode(SerializeAsStr(codec, txs).value[i]).Some? &&
      codec.readTransaction(Hex.Decode(SerializeAsStr(codec, txs).value[i]).value) == Some((txs[i], []))
  {
    var strs := SerializeAsStr(codec, txs).value;
    forall i | 0 <= i < |txs|
      ensures Hex.Decode(strs[i]).Some? && codec.readTransaction(Hex.Decode(strs[i]).value) == Some((txs[i], []))
    {
      var bytes := codec.writeTransaction(txs[i]).value;
      Hex.DecodeEncode(bytes);
      assert bytes + [] == bytes;
    }
  }
}
