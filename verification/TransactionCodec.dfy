/**
 The encoder and decoder of src/transaction/rlp.rs in their own, imperative form: an output
 buffer that grows, a cursor that advances, a running length. Every method is tied to the
 functions of module Transaction, where the properties of the codec are proved.
 */
module TransactionCodec {
  import opened Outcomes
  import opened Bytes
  import opened Rlp
  import opened Transaction

  /** One more string: the running total stays the length of what is written. */
  lemma AddString(items: seq<seq<byte>>, s: seq<byte>)
    requires Encodable(items) && |s| < LENGTH_LIMIT
    ensures Encodable(items + [s])
    ensures EncodeAll(items + [s]) == EncodeAll(items) + EncodeString(s)
    ensures |EncodeString(s)| == StringLength(s)
  {
    hide EncodeString, StringLength;
    EncodeAllAppend(items, [s]);
    StringLengthAgrees(s);
    assert EncodeAll([s]) == EncodeString(s) + EncodeAll([]);
  }

  /** The bytes written so far. */
  class Buffer {
    var bytes: seq<byte>

    constructor ()
      ensures bytes == []
    {
      bytes := [];
    }

    method Put(s: seq<byte>)
      modifies this
      ensures bytes == old(bytes) + s
    {
      bytes := bytes + s;
    }

    method PutString(s: seq<byte>)
      requires |s| < LENGTH_LIMIT
      modifies this
      ensures bytes == old(bytes) + EncodeString(s)
    {
      hide EncodeHeader;
      if |s| != 1 || s[0] >= 0x80 {
        Put(EncodeHeader(Header(false, |s|)));
      }
      Put(s);
    }

    /** Puts one more string behind `start` and the strings put there before. */
    method EncodeBytes(s: seq<byte>, ghost start: seq<byte>, ghost items: seq<seq<byte>>)
      returns (ghost more: seq<seq<byte>>)
      requires |s| < LENGTH_LIMIT && Encodable(items) && bytes == start + EncodeAll(items)
      modifies this
      ensures more == items + [s]
      ensures Encodable(more) && bytes == start + EncodeAll(more)
    {
      AddString(items, s);
      PutString(s);
      more := items + [s];
    }

    method EncodeInteger(n: u256, ghost start: seq<byte>, ghost items: seq<seq<byte>>)
      returns (ghost more: seq<seq<byte>>)
      requires Encodable(items) && bytes == start + EncodeAll(items)
      modifies this
      ensures more == items + [ToBE(n)]
      ensures Encodable(more) && bytes == start + EncodeAll(more)
    {
      UintConforms(n);
      more := EncodeBytes(ToBE(n), start, items);
    }

    /** An address, or the empty string for a contract creation. */
    method EncodeRecipient(to: Option<Address>, ghost start: seq<byte>, ghost items: seq<seq<byte>>)
      returns (ghost more: seq<seq<byte>>)
      requires Encodable(items) && bytes == start + EncodeAll(items)
      modifies this
      ensures more == items + [RecipientBytes(to)]
      ensures Encodable(more) && bytes == start + EncodeAll(more)
    {
      hide EncodeAll, Encodable;
      match to {
        case Some(addr) => more := EncodeBytes(addr, start, items);
        case None => more := EncodeBytes([], start, items);
      }
    }
  }

  /** The fields read so far are the first fields of `fs`; `at` is where the cursor is. */
  ghost predicate ReadSoFar(fs: seq<Field>, i: nat, from: seq<byte>, items: seq<seq<byte>>, at: seq<byte>) {
    i <= |fs| && DecodeFields(fs[..i], from) == Parsed(Ok(items), at)
  }

  /** One more field, or the error all of `fs` fails with. */
  lemma ReadNext(fs: seq<Field>, i: nat, from: seq<byte>, items: seq<seq<byte>>, at: seq<byte>)
    requires ReadSoFar(fs, i, from, items, at) && i < |fs|
    ensures var Parsed(o, after) := DecodeField(fs[i], at);
            if o.Err? then DecodeFields(fs, from).outcome == Err(o.error)
            else ReadSoFar(fs, i + 1, from, items + [o.value], after)
  {
    hide DecodeField;
    assert fs[..i + 1] == fs[..i] + [fs[i]];
    FieldsSplit(fs[..i], [fs[i]], from);
    assert fs == fs[..i + 1] + fs[i + 1..];
    FieldsSplit(fs[..i + 1], fs[i + 1..], from);
    var one := DecodeFields([fs[i]], at);
    var Parsed(o, after) := DecodeField(fs[i], at);
    if o.Ok? {
      assert DecodeFields([], after) == Parsed(Ok([]), after);
      assert [o.value] + [] == [o.value];
    }
  }

  /** The bytes not read yet. */
  class Cursor {
    var rest: seq<byte>

    constructor (bytes: seq<byte>)
      ensures rest == bytes
    {
      rest := bytes;
    }

    method ReadHeader() returns (r: Result<Header, RlpError>)
      modifies this
      ensures Parsed(r, rest) == DecodeHeader(old(rest))
    {
      var p := DecodeHeader(rest);
      rest := p.rest;
      return p.outcome;
    }

    method ReadString(f: Field) returns (r: Result<seq<byte>, RlpError>)
      modifies this
      ensures Parsed(r, rest) == DecodeField(f, old(rest))
    {
      var header :- ReadHeader();
      if header.list {
        return Err(UnexpectedList);
      }
      if |rest| < header.payloadLength {
        return Err(InputTooShort);
      }
      var s := rest[..header.payloadLength];
      rest := rest[header.payloadLength..];
      match FieldCheck(f, s) {
        case Some(e) => return Err(e);
        case None => return Ok(s);
      }
    }

    /** The next of the fields `fs`, `items` being the strings of those before it. */
    method DecodeBytes(f: Field, ghost fs: seq<Field>, ghost from: seq<byte>, ghost items: seq<seq<byte>>)
      returns (r: Result<seq<byte>, RlpError>, ghost more: seq<seq<byte>>)
      requires ReadSoFar(fs, |items|, from, items, rest) && |items| < |fs| && fs[|items|] == f
      modifies this
      ensures r.Err? ==> DecodeFields(fs, from).outcome == Err(r.error)
      ensures r.Ok? ==> more == items + [r.value] && FieldCheck(f, r.value) == None
      ensures r.Ok? ==> ReadSoFar(fs, |more|, from, more, rest)
    {
      hide DecodeFields, ReadSoFar, DecodeString;
      ReadNext(fs, |items|, from, items, rest);
      r := ReadString(f);
      more := if r.Ok? then items + [r.value] else items;
    }

    method DecodeU64(ghost fs: seq<Field>, ghost from: seq<byte>, ghost items: seq<seq<byte>>)
      returns (r: Result<u64, RlpError>, ghost more: seq<seq<byte>>)
      requires ReadSoFar(fs, |items|, from, items, rest) && |items| < |fs| && fs[|items|] == Uint(8)
      modifies this
      ensures r.Err? ==> DecodeFields(fs, from).outcome == Err(r.error)
      ensures r.Ok? ==>
                && |more| == |items| + 1 && items == more[..|items|]
                && FieldCheck(Uint(8), more[|items|]) == None && r.value == U64(more[|items|])
                && ReadSoFar(fs, |more|, from, more, rest)
    {
      hide DecodeFields, ReadSoFar;
      var s, next := DecodeBytes(Uint(8), fs, from, items);
      r, more := if s.Ok? then Ok(U64(s.value)) else Err(s.error), next;
    }

    method DecodeU256(ghost fs: seq<Field>, ghost from: seq<byte>, ghost items: seq<seq<byte>>)
      returns (r: Result<u256, RlpError>, ghost more: seq<seq<byte>>)
      requires ReadSoFar(fs, |items|, from, items, rest) && |items| < |fs| && fs[|items|] == Uint(32)
      modifies this
      ensures r.Err? ==> DecodeFields(fs, from).outcome == Err(r.error)
      ensures r.Ok? ==>
                && |more| == |items| + 1 && items == more[..|items|]
                && FieldCheck(Uint(32), more[|items|]) == None && r.value == U256(more[|items|])
                && ReadSoFar(fs, |more|, from, more, rest)
    {
      hide DecodeFields, ReadSoFar;
      var s, next := DecodeBytes(Uint(32), fs, from, items);
      r, more := if s.Ok? then Ok(U256(s.value)) else Err(s.error), next;
    }
  }

  // ---- lengths ------------------------------------------------------------

  lemma NoItems()
    ensures Encodable([]) && EncodeAll([]) == []
  {
  }

  lemma AddUint(items: seq<seq<byte>>, n: u256)
    requires Encodable(items)
    ensures |ToBE(n)| <= 32
    ensures Encodable(items + [ToBE(n)])
    ensures EncodeAll(items + [ToBE(n)]) == EncodeAll(items) + EncodeString(ToBE(n))
    ensures |EncodeString(ToBE(n))| == UintLength(n)
  {
    UintConforms(n);
    UintLengthAgrees(n);
    AddString(items, ToBE(n));
  }

  /** The strings of a transaction that fits are short enough to be written. */
  lemma StringsFit(tx: Tx)
    requires Fits(tx)
    ensures |tx.data| < LENGTH_LIMIT
    ensures tx.HasSignature() ==>
              |tx.pqcSignature.UnwrapOr([])| < LENGTH_LIMIT && |tx.pubKey.UnwrapOr([])| < LENGTH_LIMIT
  {
    hide ToBE;
    assert Items(tx)[7] == tx.data;
    if tx.HasSignature() {
      assert Items(tx)[11] == tx.pqcSignature.UnwrapOr([]);
      assert Items(tx)[12] == tx.pubKey.UnwrapOr([]);
    }
  }

  /** The payload length is that of the bytes `Encode` puts behind the header. */
  method RlpPayloadLength(tx: Tx) returns (payloadLength: nat)
    requires Fits(tx)
    ensures payloadLength == |EncodeAll(Items(tx))|
  {
    hide EncodeString, StringLength, UintLength, ToBE, EncodeAll, Encodable;
    StringsFit(tx);
    payloadLength := 0;
    ghost var items: seq<seq<byte>> := [];
    NoItems();
    AddUint(items, tx.chainId);
    payloadLength, items := payloadLength + UintLength(tx.chainId), items + [ToBE(tx.chainId)];
    AddUint(items, tx.nonce);
    payloadLength, items := payloadLength + UintLength(tx.nonce), items + [ToBE(tx.nonce)];
    AddUint(items, tx.maxPriorityFeePerGas);
    payloadLength, items := payloadLength + UintLength(tx.maxPriorityFeePerGas),
      items + [ToBE(tx.maxPriorityFeePerGas)];
    AddUint(items, tx.maxFeePerGas);
    payloadLength, items := payloadLength + UintLength(tx.maxFeePerGas), items + [ToBE(tx.maxFeePerGas)];
    AddUint(items, tx.gasLimit);
    payloadLength, items := payloadLength + UintLength(tx.gasLimit), items + [ToBE(tx.gasLimit)];
    AddString(items, RecipientBytes(tx.to));
    payloadLength := payloadLength + match tx.to {
      case Some(addr) => StringLength(addr)
      case None => StringLength([])
    };
    items := items + [RecipientBytes(tx.to)];
    AddUint(items, tx.value);
    payloadLength, items := payloadLength + UintLength(tx.value), items + [ToBE(tx.value)];
    AddString(items, tx.data);
    payloadLength, items := payloadLength + StringLength(tx.data), items + [tx.data];
    assert items == HeadItems(tx);

    var hasSignature := tx.v.Some? || tx.pqcSignature.Some?;
    if hasSignature {
      AddUint(items, tx.v.UnwrapOr(0));
      payloadLength, items := payloadLength + UintLength(tx.v.UnwrapOr(0)), items + [ToBE(tx.v.UnwrapOr(0))];
      AddUint(items, tx.r.UnwrapOr(0));
      payloadLength, items := payloadLength + UintLength(tx.r.UnwrapOr(0)), items + [ToBE(tx.r.UnwrapOr(0))];
      AddUint(items, tx.s.UnwrapOr(0));
      payloadLength, items := payloadLength + UintLength(tx.s.UnwrapOr(0)), items + [ToBE(tx.s.UnwrapOr(0))];
      AddString(items, tx.pqcSignature.UnwrapOr([]));
      payloadLength := payloadLength + StringLength(tx.pqcSignature.UnwrapOr([]));
      items := items + [tx.pqcSignature.UnwrapOr([])];
      AddString(items, tx.pubKey.UnwrapOr([]));
      payloadLength := payloadLength + StringLength(tx.pubKey.UnwrapOr([]));
      items := items + [tx.pubKey.UnwrapOr([])];
    }
    assert items == Items(tx);
  }

  method Length(tx: Tx) returns (n: nat)
    requires Fits(tx)
    ensures n == |EncodeTx(tx)|
  {
    hide Items, EncodeAll;
    var payloadLength := RlpPayloadLength(tx);
    HeaderLengthAgrees(Header(true, payloadLength));
    n := LengthOfLength(payloadLength) + payloadLength;
  }

  // ---- encode ---------------------------------------------------------------

  /** The eight fields every transaction is written with. */
  method EncodeHead(tx: Tx, out: Buffer, ghost start: seq<byte>) returns (ghost items: seq<seq<byte>>)
    requires out.bytes == start && |tx.data| < LENGTH_LIMIT
    modifies out
    ensures items == HeadItems(tx) && Encodable(items) && out.bytes == start + EncodeAll(items)
  {
    hide EncodeString, ToBE, EncodeAll, EncodeHeader, Encodable;
    items := [];
    NoItems();
    items := out.EncodeInteger(tx.chainId, start, items);
    items := out.EncodeInteger(tx.nonce, start, items);
    items := out.EncodeInteger(tx.maxPriorityFeePerGas, start, items);
    items := out.EncodeInteger(tx.maxFeePerGas, start, items);
    items := out.EncodeInteger(tx.gasLimit, start, items);
    items := out.EncodeRecipient(tx.to, start, items);
    items := out.EncodeInteger(tx.value, start, items);
    items := out.EncodeBytes(tx.data, start, items);
  }

  /** The five fields a signed transaction has behind them. */
  method EncodeTail(tx: Tx, out: Buffer, ghost start: seq<byte>, ghost head: seq<seq<byte>>)
    returns (ghost items: seq<seq<byte>>)
    requires |tx.pqcSignature.UnwrapOr([])| < LENGTH_LIMIT && |tx.pubKey.UnwrapOr([])| < LENGTH_LIMIT
    requires Encodable(head) && out.bytes == start + EncodeAll(head)
    modifies out
    ensures items == head + (LegacyTailItems(tx) + [tx.pubKey.UnwrapOr([])])
    ensures Encodable(items) && out.bytes == start + EncodeAll(items)
  {
    hide EncodeString, ToBE, EncodeAll, EncodeHeader, Encodable;
    items := head;
    items := out.EncodeInteger(tx.v.UnwrapOr(0), start, items);
    items := out.EncodeInteger(tx.r.UnwrapOr(0), start, items);
    items := out.EncodeInteger(tx.s.UnwrapOr(0), start, items);
    items := out.EncodeBytes(tx.pqcSignature.UnwrapOr([]), start, items);
    items := out.EncodeBytes(tx.pubKey.UnwrapOr([]), start, items);
  }

  method Encode(tx: Tx, out: Buffer)
    requires Fits(tx)
    modifies out
    ensures out.bytes == old(out.bytes) + EncodeTx(tx)
  {
    hide EncodeString, ToBE, EncodeAll, EncodeHeader, HeadItems, Encodable;
    StringsFit(tx);
    var payloadLength := RlpPayloadLength(tx);
    var header := Header(true, payloadLength);
    out.Put(EncodeHeader(header));
    ghost var start := out.bytes;
    ghost var items := EncodeHead(tx, out, start);

    var hasSignature := tx.v.Some? || tx.pqcSignature.Some?;
    if hasSignature {
      items := EncodeTail(tx, out, start, items);
    }
    assert items == Items(tx);
  }

  // ---- decode ---------------------------------------------------------------

  lemma ReadStart(fs: seq<Field>, from: seq<byte>)
    ensures ReadSoFar(fs, 0, from, [], from)
  {
    assert fs[..0] == [];
  }

  lemma ReadEnd(fs: seq<Field>, from: seq<byte>, items: seq<seq<byte>>, at: seq<byte>)
    requires ReadSoFar(fs, |fs|, from, items, at)
    ensures DecodeFields(fs, from) == Parsed(Ok(items), at)
  {
    assert fs[..|fs|] == fs;
  }

  /** The eight fields every transaction starts with. */
  method DecodeHeadFields(body: Cursor) returns (r: Result<Tx, RlpError>)
    modifies body
    ensures var p := DecodeFields(HEAD, old(body.rest));
            if p.outcome.Err? then r == Err(p.outcome.error)
            else r == Ok(FromHead(p.outcome.value)) && body.rest == p.rest
  {
    hide DecodeFields, ReadSoFar, U64, U256, FieldCheck;
    ghost var all := body.rest;
    ReadStart(HEAD, all);
    var chainId, i1 :- body.DecodeU64(HEAD, all, []);
    var nonce, i2 :- body.DecodeU64(HEAD, all, i1);
    var maxPriorityFeePerGas, i3 :- body.DecodeU256(HEAD, all, i2);
    var maxFeePerGas, i4 :- body.DecodeU256(HEAD, all, i3);
    var gasLimit, i5 :- body.DecodeU64(HEAD, all, i4);
    var toBytes, i6 :- body.DecodeBytes(Recipient, HEAD, all, i5);
    var to := RecipientOf(toBytes);
    var value, i7 :- body.DecodeU256(HEAD, all, i6);
    var data, i8 :- body.DecodeBytes(Text, HEAD, all, i7);
    ReadEnd(HEAD, all, i8, body.rest);
    return Ok(Tx(chainId, nonce, maxPriorityFeePerGas, maxFeePerGas, gasLimit, to, value, data,
                 None, None, None, None, None));
  }

  /** Decoding is bounded by the declared payload; the caller's cursor moves past it on success only. */
  method Decode(buf: Cursor) returns (result: Result<Tx, RlpError>)
    modifies buf
    ensures Parsed(result, buf.rest) == DecodeTx(old(buf.rest))
  {
    hide DecodeHeader, DecodeFields, ReadSoFar, FromHead, U64, U256, FieldCheck;
    var header :- buf.ReadHeader();
    if !header.list {
      return Err(UnexpectedString);
    }
    if header.payloadLength > |buf.rest| {
      return Err(InputTooShort);
    }
    var payload, rest := buf.rest[..header.payloadLength], buf.rest[header.payloadLength..];
    var body := new Cursor(payload);
    var tx :- DecodeHeadFields(body);
    TxOfHead(DecodeFields(HEAD, payload).outcome.value);

    var v: Option<u256>, r: Option<u256>, s: Option<u256> := None, None, None;
    var pqcSignature: Option<seq<byte>>, pubKey: Option<seq<byte>> := None, None;
    if body.rest != [] {
      ghost var tail := body.rest;
      ReadStart(LEGACY_TAIL, tail);
      var vValue, i1 :- body.DecodeU256(LEGACY_TAIL, tail, []);
      var rValue, i2 :- body.DecodeU256(LEGACY_TAIL, tail, i1);
      var sValue, i3 :- body.DecodeU256(LEGACY_TAIL, tail, i2);
      var pqcBytes, i4 :- body.DecodeBytes(Text, LEGACY_TAIL, tail, i3);
      ReadEnd(LEGACY_TAIL, tail, i4, body.rest);
      v, r, s, pqcSignature := Some(vValue), Some(rValue), Some(sValue), Some(pqcBytes);
      if body.rest != [] {
        ghost var last := body.rest;
        ReadStart([Text], last);
        var pkBytes, k1 :- body.DecodeBytes(Text, [Text], last, []);
        ReadEnd([Text], last, k1, body.rest);
        if pkBytes != [] {
          pubKey := Some(pkBytes);
        }
      }
    }
    if body.rest != [] {
      return Err(TrailingBytes);
    }
    buf.rest := rest;
    return Ok(tx.(v := v, r := r, s := s, pqcSignature := pqcSignature, pubKey := pubKey));
  }
}
