/**
 The transaction and its wire codec (src/transaction/types.rs, src/transaction/rlp.rs):
 what is written, what is read back, and the exact set of byte strings that is accepted.
 The imperative encoder and decoder are in module TransactionCodec.
 */
module Transaction {
  import opened Outcomes
  import opened Bytes
  import opened Rlp

  type u64 = n: int | 0 <= n < 0x1_0000_0000_0000_0000

  type u256 = n: int |
    0 <= n < 0x1_00000000_00000000_00000000_00000000_00000000_00000000_00000000_00000000

  type Address = a: seq<byte> | |a| == 20
    witness [0, 0, 0, 0, 0, 0, 0, 0, 0, 0, 0, 0, 0, 0, 0, 0, 0, 0, 0, 0]

  datatype Tx = Tx(
    chainId: u64,
    nonce: u64,
    maxPriorityFeePerGas: u256,
    maxFeePerGas: u256,
    gasLimit: u64,
    to: Option<Address>,
    value: u256,
    data: seq<byte>,
    v: Option<u256>,
    r: Option<u256>,
    s: Option<u256>,
    pqcSignature: Option<seq<byte>>,
    pubKey: Option<seq<byte>>)
  {
    /** The tail is written as soon as one of these two fields is present. */
    predicate HasSignature() {
      v.Some? || pqcSignature.Some?
    }

    /** The eight economic fields: a copy without any signature field. */
    function Unsigned(): Tx {
      Tx(chainId, nonce, maxPriorityFeePerGas, maxFeePerGas, gasLimit, to, value, data,
         None, None, None, None, None)
    }

    /** What survives a trip over the wire. */
    function NormalForm(): Tx {
      if !HasSignature() then Unsigned()
      else this.(v := Some(v.UnwrapOr(0)), r := Some(r.UnwrapOr(0)), s := Some(s.UnwrapOr(0)),
                 pqcSignature := Some(pqcSignature.UnwrapOr([])),
                 pubKey := if pubKey.UnwrapOr([]) == [] then None else pubKey)
    }
  }

  // ---- what is written ----------------------------------------------------

  function RecipientBytes(to: Option<Address>): seq<byte> {
    match to
    case None => []
    case Some(a) => a
  }

  function HeadItems(tx: Tx): (items: seq<seq<byte>>)
    ensures |items| == 8
  {
    [ToBE(tx.chainId), ToBE(tx.nonce), ToBE(tx.maxPriorityFeePerGas), ToBE(tx.maxFeePerGas),
     ToBE(tx.gasLimit), RecipientBytes(tx.to), ToBE(tx.value), tx.data]
  }

  function LegacyTailItems(tx: Tx): (items: seq<seq<byte>>)
    ensures |items| == 4
  {
    [ToBE(tx.v.UnwrapOr(0)), ToBE(tx.r.UnwrapOr(0)), ToBE(tx.s.UnwrapOr(0)),
     tx.pqcSignature.UnwrapOr([])]
  }

  function Items(tx: Tx): seq<seq<byte>> {
    HeadItems(tx)
    + if tx.HasSignature() then LegacyTailItems(tx) + [tx.pubKey.UnwrapOr([])] else []
  }

  /** The list as written before `pub_key` was added: twelve items. */
  function LegacyItems(tx: Tx): seq<seq<byte>> {
    HeadItems(tx) + LegacyTailItems(tx)
  }

  /** Every length involved fits a 64-bit usize, as for any list RLP can express. */
  ghost predicate ListFits(items: seq<seq<byte>>) {
    Encodable(items) && |EncodeAll(items)| < LENGTH_LIMIT
  }

  ghost predicate Fits(tx: Tx) {
    ListFits(Items(tx))
  }

  function EncodeList(items: seq<seq<byte>>): seq<byte>
    requires ListFits(items)
  {
    EncodeHeader(Header(true, |EncodeAll(items)|)) + EncodeAll(items)
  }

  function EncodeTx(tx: Tx): seq<byte>
    requires Fits(tx)
  {
    EncodeList(Items(tx))
  }

  // ---- what is read ---------------------------------------------------------

  const HEAD: seq<Field> :=
    [Uint(8), Uint(8), Uint(32), Uint(32), Uint(8), Recipient, Uint(32), Text]

  const LEGACY_TAIL: seq<Field> := [Uint(32), Uint(32), Uint(32), Text]

  lemma UintValue(width: nat, s: seq<byte>)
    requires FieldCheck(Uint(width), s) == None
    ensures FromBE(s) < Pow256(width) && ToBE(FromBE(s)) == s
  {
    BEBound(s);
    Pow256Monotonic(|s|, width);
    ToFromBE(s);
  }

  function U64(s: seq<byte>): (n: u64)
    requires FieldCheck(Uint(8), s) == None
    ensures ToBE(n) == s
  {
    UintValue(8, s);
    Widths();
    FromBE(s)
  }

  function U256(s: seq<byte>): (n: u256)
    requires FieldCheck(Uint(32), s) == None
    ensures ToBE(n) == s
  {
    UintValue(32, s);
    Widths();
    FromBE(s)
  }

  function RecipientOf(s: seq<byte>): (to: Option<Address>)
    requires FieldCheck(Recipient, s) == None
    ensures RecipientBytes(to) == s
  {
    if s == [] then None else Some(s)
  }

  /** The transaction the eight head strings stand for; no signature fields. */
  function FromHead(items: seq<seq<byte>>): Tx
    requires Conforms(HEAD, items)
  {
    assert forall i | 0 <= i < 8 :: FieldCheck(HEAD[i], items[i]) == None;
    Tx(U64(items[0]), U64(items[1]), U256(items[2]), U256(items[3]), U64(items[4]),
       RecipientOf(items[5]), U256(items[6]), items[7], None, None, None, None, None)
  }

  function WithTail(tx: Tx, items: seq<seq<byte>>): Tx
    requires Conforms(LEGACY_TAIL, items)
  {
    assert forall i | 0 <= i < 4 :: FieldCheck(LEGACY_TAIL[i], items[i]) == None;
    tx.(v := Some(U256(items[0])), r := Some(U256(items[1])), s := Some(U256(items[2])),
        pqcSignature := Some(items[3]))
  }

  /** `pub_key` was added later: an empty one reads as None. */
  function WithPubKey(tx: Tx, pk: seq<byte>): Tx {
    if pk == [] then tx else tx.(pubKey := Some(pk))
  }

  function DecodePayload(body: seq<byte>): Result<Tx, RlpError> {
    var Parsed(head, afterHead) := DecodeFields(HEAD, body);
    if head.Err? then Err(head.error)
    else if afterHead == [] then Ok(FromHead(head.value))
    else
      var Parsed(tail, afterTail) := DecodeFields(LEGACY_TAIL, afterHead);
      if tail.Err? then Err(tail.error)
      else
        var signed := WithTail(FromHead(head.value), tail.value);
        if afterTail == [] then Ok(signed)
        else
          var Parsed(pk, left) := DecodeFields([Text], afterTail);
          if pk.Err? then Err(pk.error)
          else if left != [] then Err(TrailingBytes)
          else Ok(WithPubKey(signed, pk.value[0]))
  }

  /** The decoder: on failure the cursor stays where the list header left it. */
  function DecodeTx(buf: seq<byte>): Parsed<Tx> {
    var (h, after) :- DecodeHeader(buf);
    if !h.list then Parsed(Err(UnexpectedString), after)
    else if h.payloadLength > |after| then Parsed(Err(InputTooShort), after)
    else
      var o := DecodePayload(after[..h.payloadLength]);
      Parsed(o, if o.Ok? then after[h.payloadLength..] else after)
  }

  // ---- fields and their strings ---------------------------------------------------

  lemma UintConforms(n: u256)
    ensures FieldCheck(Uint(32), ToBE(n)) == None && U256(ToBE(n)) == n
    ensures n < 0x1_0000_0000_0000_0000 ==>
              FieldCheck(Uint(8), ToBE(n)) == None && U64(ToBE(n)) == n
  {
    Widths();
    BELength(n, 32);
    BELength(n, 8);
    FromToBE(n);
  }

  lemma HeadOfTx(tx: Tx)
    ensures Conforms(HEAD, HeadItems(tx)) && FromHead(HeadItems(tx)) == tx.Unsigned()
  {
    hide ToBE, FromBE;
    UintConforms(tx.chainId);
    UintConforms(tx.nonce);
    UintConforms(tx.maxPriorityFeePerGas);
    UintConforms(tx.maxFeePerGas);
    UintConforms(tx.gasLimit);
    UintConforms(tx.value);
  }

  lemma TxOfHead(items: seq<seq<byte>>)
    requires Conforms(HEAD, items)
    ensures HeadItems(FromHead(items)) == items
    ensures FromHead(items) == FromHead(items).Unsigned()
  {
  }

  lemma TailOfTx(tx: Tx, base: Tx)
    ensures Conforms(LEGACY_TAIL, LegacyTailItems(tx))
    ensures WithTail(base, LegacyTailItems(tx))
         == base.(v := Some(tx.v.UnwrapOr(0)), r := Some(tx.r.UnwrapOr(0)),
                  s := Some(tx.s.UnwrapOr(0)), pqcSignature := Some(tx.pqcSignature.UnwrapOr([])))
  {
    hide ToBE, FromBE;
    UintConforms(tx.v.UnwrapOr(0));
    UintConforms(tx.r.UnwrapOr(0));
    UintConforms(tx.s.UnwrapOr(0));
  }

  lemma TxOfTail(base: Tx, items: seq<seq<byte>>)
    requires Conforms(LEGACY_TAIL, items)
    ensures LegacyTailItems(WithTail(base, items)) == items
  {
  }

  // ---- the payload, both ways --------------------------------------------------------

  lemma EncodableParts(xs: seq<seq<byte>>, ys: seq<seq<byte>>)
    requires Encodable(xs + ys)
    ensures Encodable(xs) && Encodable(ys)
  {
    assert forall i | 0 <= i < |xs| :: xs[i] == (xs + ys)[i];
    assert forall i | 0 <= i < |ys| :: ys[i] == (xs + ys)[|xs| + i];
  }

  lemma EncodeAllNonEmpty(items: seq<seq<byte>>)
    requires Encodable(items)
    ensures EncodeAll(items) == [] <==> items == []
  {
    if items != [] {
      assert EncodeString(items[0]) != [];
    }
  }

  /** Reading one block of fields off a concatenation of two. */
  lemma ReadBlock(fs: seq<Field>, xs: seq<seq<byte>>, ys: seq<seq<byte>>)
    requires Encodable(xs + ys) && Conforms(fs, xs)
    ensures Encodable(ys)
    ensures DecodeFields(fs, EncodeAll(xs + ys)) == Parsed(Ok(xs), EncodeAll(ys))
    ensures EncodeAll(ys) == [] <==> ys == []
  {
    EncodableParts(xs, ys);
    EncodeAllAppend(xs, ys);
    FieldsRoundTrip(fs, xs, EncodeAll(ys));
    EncodeAllNonEmpty(ys);
  }

  lemma PayloadRoundTrip(tx: Tx)
    requires Encodable(Items(tx))
    ensures DecodePayload(EncodeAll(Items(tx))) == Ok(tx.NormalForm())
  {
    hide DecodeFields, EncodeAll, FromHead, WithTail, HeadItems, LegacyTailItems;
    var head, tail, pk := HeadItems(tx), LegacyTailItems(tx), [tx.pubKey.UnwrapOr([])];
    HeadOfTx(tx);
    if tx.HasSignature() {
      TailOfTx(tx, tx.Unsigned());
      assert Items(tx) == head + (tail + pk);
      ReadBlock(HEAD, head, tail + pk);
      ReadBlock(LEGACY_TAIL, tail, pk);
      assert pk + [] == pk;
      ReadBlock([Text], pk, []);
    } else {
      ReadBlock(HEAD, head, []);
    }
  }

  lemma LegacyPayloadRoundTrip(tx: Tx)
    requires tx.HasSignature() && Encodable(LegacyItems(tx))
    ensures DecodePayload(EncodeAll(LegacyItems(tx))) == Ok(tx.NormalForm().(pubKey := None))
  {
    hide DecodeFields, EncodeAll, FromHead, WithTail, HeadItems, LegacyTailItems;
    var head, tail := HeadItems(tx), LegacyTailItems(tx);
    HeadOfTx(tx);
    TailOfTx(tx, tx.Unsigned());
    ReadBlock(HEAD, head, tail);
    assert tail + [] == tail;
    ReadBlock(LEGACY_TAIL, tail, []);
  }

  lemma JoinBlocks(xs: seq<seq<byte>>, ys: seq<seq<byte>>, body: seq<byte>, rest: seq<byte>)
    requires Encodable(xs) && Encodable(ys)
    requires body == EncodeAll(xs) + (EncodeAll(ys) + rest)
    ensures Encodable(xs + ys) && body == EncodeAll(xs + ys) + rest
  {
    EncodeAllAppend(xs, ys);
  }

  /** A decoded tail leaves the head strings alone and makes the transaction normal. */
  lemma TailFacts(base: Tx, items: seq<seq<byte>>, pk: seq<byte>)
    requires base == base.Unsigned() && Conforms(LEGACY_TAIL, items)
    ensures var signed := WithTail(base, items);
            && signed.v.Some? && signed.pubKey.None? && signed == signed.NormalForm()
            && LegacyItems(signed) == HeadItems(base) + items
    ensures var tx := WithPubKey(WithTail(base, items), pk);
            && tx == tx.NormalForm()
            && Items(tx) == HeadItems(base) + items + [pk]
  {
    hide U64, U256, ToBE;
    TxOfTail(base, items);
  }

  /** A transaction the twelve-item form can carry: signed, without a public key. */
  predicate IsLegacy(tx: Tx) {
    tx.v.Some? && tx.pubKey.None?
  }

  /** An accepted payload is that of the normal transaction it reads as, in one of two forms. */
  lemma PayloadCanonical(body: seq<byte>)
    requires DecodePayload(body).Ok?
    ensures var tx := DecodePayload(body).value;
            && tx == tx.NormalForm()
            && ( || (Encodable(Items(tx)) && body == EncodeAll(Items(tx)))
                 || (IsLegacy(tx) && Encodable(LegacyItems(tx)) && body == EncodeAll(LegacyItems(tx))))
  {
    hide DecodeFields, EncodeAll, FromHead, WithTail, WithPubKey, HeadItems, LegacyTailItems, LegacyItems;
    var Parsed(head, afterHead) := DecodeFields(HEAD, body);
    FieldsCanonical(HEAD, body);
    TxOfHead(head.value);
    var base := FromHead(head.value);
    if afterHead == [] {
      assert Items(base) == head.value;
    } else {
      var Parsed(tail, afterTail) := DecodeFields(LEGACY_TAIL, afterHead);
      FieldsCanonical(LEGACY_TAIL, afterHead);
      JoinBlocks(head.value, tail.value, body, afterTail);
      if afterTail == [] {
        TailFacts(base, tail.value, []);
      } else {
        var Parsed(pk, left) := DecodeFields([Text], afterTail);
        FieldsCanonical([Text], afterTail);
        JoinBlocks(head.value + tail.value, pk.value, body, []);
        TailFacts(base, tail.value, pk.value[0]);
        assert pk.value == [pk.value[0]];
      }
    }
  }

  // ---- the codec's theorems -------------------------------------------------------------

  lemma ListRead(items: seq<seq<byte>>, rest: seq<byte>)
    requires ListFits(items)
    ensures var o := DecodePayload(EncodeAll(items));
            var left := if o.Ok? then rest else EncodeAll(items) + rest;
            DecodeTx(EncodeList(items) + rest) == Parsed(o, left)
  {
    hide DecodePayload, DecodeHeader, EncodeHeader;
    var payload := EncodeAll(items);
    var h := Header(true, |payload|);
    HeaderRoundTrip(h, payload + rest);
    assert EncodeList(items) + rest == EncodeHeader(h) + (payload + rest);
    assert (payload + rest)[..|payload|] == payload && (payload + rest)[|payload|..] == rest;
  }

  /** Decoding what was written gives the normal form and leaves exactly what followed. */
  lemma RoundTrip(tx: Tx, rest: seq<byte>)
    requires Fits(tx)
    ensures DecodeTx(EncodeTx(tx) + rest) == Parsed(Ok(tx.NormalForm()), rest)
  {
    hide DecodeTx, DecodePayload, EncodeList, Items;
    ListRead(Items(tx), rest);
    PayloadRoundTrip(tx);
  }

  /** The twelve-item form is read back too, without a public key. */
  lemma LegacyRoundTrip(tx: Tx, rest: seq<byte>)
    requires tx.HasSignature() && ListFits(LegacyItems(tx))
    ensures DecodeTx(EncodeList(LegacyItems(tx)) + rest)
         == Parsed(Ok(tx.NormalForm().(pubKey := None)), rest)
  {
    hide DecodeTx, DecodePayload, EncodeList, LegacyItems;
    ListRead(LegacyItems(tx), rest);
    LegacyPayloadRoundTrip(tx);
  }

  /** `buf` starts with the current or the legacy form of tx and goes on with `rest`. */
  ghost predicate WireForm(buf: seq<byte>, tx: Tx, rest: seq<byte>) {
    || (Fits(tx) && buf == EncodeTx(tx) + rest)
    || (IsLegacy(tx) && ListFits(LegacyItems(tx)) && buf == EncodeList(LegacyItems(tx)) + rest)
  }

  lemma AcceptedForms(buf: seq<byte>)
    requires DecodeTx(buf).outcome.Ok?
    ensures var Parsed(o, rest) := DecodeTx(buf);
            o.value == o.value.NormalForm() && WireForm(buf, o.value, rest)
  {
    hide DecodePayload, DecodeHeader, EncodeHeader, Items, LegacyItems, EncodeAll;
    HeaderCanonical(buf);
    var Parsed(h, after) := DecodeHeader(buf);
    var n := h.value.payloadLength;
    PayloadCanonical(after[..n]);
    assert buf == EncodeHeader(h.value) + (after[..n] + after[n..]);
  }

  /**
   The decoder accepts exactly the wire forms of normal transactions: nothing else decodes,
   and every wire form does.
   */
  lemma AcceptedExactly(buf: seq<byte>, tx: Tx, rest: seq<byte>)
    ensures DecodeTx(buf) == Parsed(Ok(tx), rest)
       <==> tx == tx.NormalForm() && WireForm(buf, tx, rest)
  {
    hide DecodeTx, DecodePayload, EncodeList, Items, LegacyItems;
    if DecodeTx(buf) == Parsed(Ok(tx), rest) {
      AcceptedForms(buf);
    }
    if tx == tx.NormalForm() && Fits(tx) && buf == EncodeTx(tx) + rest {
      RoundTrip(tx, rest);
    } else if tx == tx.NormalForm() && WireForm(buf, tx, rest) {
      LegacyRoundTrip(tx, rest);
    }
  }

  /** Normalising changes no string that is written. */
  lemma NormalItems(tx: Tx)
    ensures Items(tx.NormalForm()) == Items(tx)
  {
  }

  /** Two transactions share a wire form exactly when their normal forms agree. */
  lemma SameEncoding(a: Tx, b: Tx)
    requires Fits(a) && Fits(b)
    ensures EncodeTx(a) == EncodeTx(b) <==> a.NormalForm() == b.NormalForm()
  {
    hide DecodeTx, Fits;
    if EncodeTx(a) == EncodeTx(b) {
      RoundTrip(a, []);
      RoundTrip(b, []);
    }
    if a.NormalForm() == b.NormalForm() {
      NormalItems(a);
      NormalItems(b);
    }
  }

  /** Encodings are self-delimiting: a stream of two splits in only one way. */
  lemma SelfDelimiting(a: Tx, b: Tx, restA: seq<byte>, restB: seq<byte>)
    requires Fits(a) && Fits(b)
    requires EncodeTx(a) + restA == EncodeTx(b) + restB
    ensures restA == restB && EncodeTx(a) == EncodeTx(b) && a.NormalForm() == b.NormalForm()
  {
    hide DecodeTx, Fits, Items;
    RoundTrip(a, restA);
    RoundTrip(b, restB);
    SameEncoding(a, b);
  }

  /** The list payload at the front of a buffer, if a whole list is there. */
  function ListPayload(buf: seq<byte>): seq<byte> {
    var Parsed(h, after) := DecodeHeader(buf);
    if h.Ok? && h.value.payloadLength <= |after| then after[..h.value.payloadLength] else []
  }

  lemma ItemCounts(tx: Tx)
    ensures |LegacyItems(tx)| == 12 && |Items(tx)| != 12
  {
  }

  lemma PayloadOfList(items: seq<seq<byte>>, rest: seq<byte>)
    requires ListFits(items)
    ensures ListPayload(EncodeList(items) + rest) == EncodeAll(items)
  {
    hide DecodeHeader, EncodeHeader;
    var payload := EncodeAll(items);
    var h := Header(true, |payload|);
    HeaderRoundTrip(h, payload + rest);
    assert EncodeList(items) + rest == EncodeHeader(h) + (payload + rest);
    assert (payload + rest)[..|payload|] == payload;
  }

  /**
   Re-encoding an accepted string gives it back exactly when its payload does not consist of
   twelve items, the form written before `pub_key` existed. In that form the re-encoding is
   a different string that reads as the same transaction.
   */
  lemma CanonicalExactly(buf: seq<byte>)
    requires DecodeTx(buf).outcome.Ok?
    requires Fits(DecodeTx(buf).outcome.value)
    ensures var Parsed(o, rest) := DecodeTx(buf);
            && (buf == EncodeTx(o.value) + rest <==> CountItems(ListPayload(buf)) != Some(12))
            && DecodeTx(EncodeTx(o.value) + rest) == Parsed(o, rest)
  {
    hide DecodeTx, ListPayload, CountItems, EncodeList, Items, LegacyItems;
    var Parsed(o, rest) := DecodeTx(buf);
    var tx := o.value;
    AcceptedForms(buf);
    RoundTrip(tx, rest);
    PayloadOfList(Items(tx), rest);
    CountItemsOfEncodeAll(Items(tx));
    ItemCounts(tx);
    if IsLegacy(tx) && ListFits(LegacyItems(tx)) && buf == EncodeList(LegacyItems(tx)) + rest {
      PayloadOfList(LegacyItems(tx), rest);
      CountItemsOfEncodeAll(LegacyItems(tx));
    }
  }

  /** The exception is real: every signed transaction without a public key has a second wire form. */
  lemma LegacyFormDiffers(tx: Tx, rest: seq<byte>)
    requires IsLegacy(tx) && tx == tx.NormalForm() && Fits(tx) && ListFits(LegacyItems(tx))
    ensures var old' := EncodeList(LegacyItems(tx)) + rest;
            && old' != EncodeTx(tx) + rest
            && DecodeTx(old') == DecodeTx(EncodeTx(tx) + rest) == Parsed(Ok(tx), rest)
  {
    hide DecodeTx, EncodeList, Items, LegacyItems;
    RoundTrip(tx, rest);
    LegacyRoundTrip(tx, rest);
    PayloadOfList(Items(tx), rest);
    PayloadOfList(LegacyItems(tx), rest);
    CountItemsOfEncodeAll(Items(tx));
    CountItemsOfEncodeAll(LegacyItems(tx));
    ItemCounts(tx);
  }

  /** The blocks of a signed payload, with something behind them. */
  lemma SignedBlocks(tx: Tx, extra: seq<byte>)
    requires tx.HasSignature() && Encodable(Items(tx))
    ensures var head, tail, pk := HeadItems(tx), LegacyTailItems(tx), [tx.pubKey.UnwrapOr([])];
            && Encodable(head) && Encodable(tail) && Encodable(pk)
            && EncodeAll(Items(tx)) + extra == EncodeAll(head) + (EncodeAll(tail) + (EncodeAll(pk) + extra))
  {
    hide EncodeAll, HeadItems, LegacyTailItems;
    var head, tail, pk := HeadItems(tx), LegacyTailItems(tx), [tx.pubKey.UnwrapOr([])];
    assert Items(tx) == head + (tail + pk);
    EncodableParts(head, tail + pk);
    EncodableParts(tail, pk);
    EncodeAllAppend(head, tail + pk);
    EncodeAllAppend(tail, pk);
  }

  lemma TrailingPayload(tx: Tx, extra: seq<byte>)
    requires tx.HasSignature() && Encodable(Items(tx)) && extra != []
    ensures DecodePayload(EncodeAll(Items(tx)) + extra) == Err(TrailingBytes)
  {
    hide DecodeFields, EncodeAll, FromHead, WithTail, HeadItems, LegacyTailItems, Items, Encodable;
    var head, tail, pk := HeadItems(tx), LegacyTailItems(tx), [tx.pubKey.UnwrapOr([])];
    HeadOfTx(tx);
    TailOfTx(tx, tx.Unsigned());
    SignedBlocks(tx, extra);
    var last := EncodeAll(pk) + extra;
    FieldsRoundTrip([Text], pk, extra);
    FieldsRoundTrip(LEGACY_TAIL, tail, last);
    FieldsRoundTrip(HEAD, head, EncodeAll(tail) + last);
  }

  /** The payload of a signed transaction with more bytes behind its thirteen items. */
  ghost predicate Overlong(payload: seq<byte>, tx: Tx, extra: seq<byte>) {
    tx.HasSignature() && Encodable(Items(tx)) && extra != [] && payload == EncodeAll(Items(tx)) + extra
  }

  lemma OverlongRejected(body: seq<byte>, tx: Tx, extra: seq<byte>)
    requires Overlong(body, tx, extra)
    ensures DecodePayload(body) == Err(TrailingBytes)
  {
    hide DecodePayload;
    TrailingPayload(tx, extra);
  }

  lemma TrailingWitness(body: seq<byte>) returns (tx: Tx, extra: seq<byte>)
    requires DecodePayload(body) == Err(TrailingBytes)
    ensures Overlong(body, tx, extra)
  {
    hide DecodeFields, EncodeAll, FromHead, WithTail, WithPubKey, HeadItems, LegacyTailItems, LegacyItems;
    FieldsNeverTrail(HEAD, body);
    var Parsed(head, afterHead) := DecodeFields(HEAD, body);
    FieldsNeverTrail(LEGACY_TAIL, afterHead);
    var Parsed(tail, afterTail) := DecodeFields(LEGACY_TAIL, afterHead);
    FieldsNeverTrail([Text], afterTail);
    var Parsed(pk, left) := DecodeFields([Text], afterTail);
    FieldsCanonical(HEAD, body);
    FieldsCanonical(LEGACY_TAIL, afterHead);
    FieldsCanonical([Text], afterTail);
    JoinBlocks(head.value, tail.value, body, afterTail);
    JoinBlocks(head.value + tail.value, pk.value, body, left);
    TxOfHead(head.value);
    TailFacts(FromHead(head.value), tail.value, pk.value[0]);
    assert pk.value == [pk.value[0]];
    tx, extra := WithPubKey(WithTail(FromHead(head.value), tail.value), pk.value[0]), left;
  }

  /** Bytes behind the thirteenth item, inside the declared payload, are refused as trailing. */
  lemma TrailingRejected(tx: Tx, extra: seq<byte>, rest: seq<byte>)
    requires tx.HasSignature() && Encodable(Items(tx)) && extra != []
    requires |EncodeAll(Items(tx)) + extra| < LENGTH_LIMIT
    ensures var payload := EncodeAll(Items(tx)) + extra;
            var buf := EncodeHeader(Header(true, |payload|)) + payload + rest;
            DecodeTx(buf) == Parsed(Err(TrailingBytes), payload + rest)
  {
    hide DecodeHeader, EncodeHeader, DecodePayload;
    var payload := EncodeAll(Items(tx)) + extra;
    var h := Header(true, |payload|);
    HeaderRoundTrip(h, payload + rest);
    assert EncodeHeader(h) + payload + rest == EncodeHeader(h) + (payload + rest);
    assert (payload + rest)[..|payload|] == payload;
    TrailingPayload(tx, extra);
  }

  /** `buf` is a list header, the payload it declares, and `rest`. */
  ghost predicate ListForm(buf: seq<byte>, payload: seq<byte>, rest: seq<byte>) {
    |payload| < LENGTH_LIMIT && buf == EncodeHeader(Header(true, |payload|)) + payload + rest
  }

  /** What the decoder makes of a list: the verdict on its payload. */
  lemma ListFormRead(buf: seq<byte>, payload: seq<byte>, rest: seq<byte>)
    requires ListForm(buf, payload, rest)
    ensures DecodeTx(buf).outcome == DecodePayload(payload)
  {
    hide DecodeHeader, EncodeHeader, DecodePayload;
    var h := Header(true, |payload|);
    HeaderRoundTrip(h, payload + rest);
    assert buf == EncodeHeader(h) + (payload + rest);
    assert (payload + rest)[..|payload|] == payload;
  }

  lemma TrailingList(buf: seq<byte>) returns (payload: seq<byte>, rest: seq<byte>)
    requires DecodeTx(buf).outcome == Err(TrailingBytes)
    ensures ListForm(buf, payload, rest) && DecodePayload(payload) == Err(TrailingBytes)
  {
    hide DecodeHeader, EncodeHeader, DecodePayload;
    HeaderNeverTrails(buf);
    HeaderCanonical(buf);
    var Parsed(h, after) := DecodeHeader(buf);
    payload, rest := after[..h.value.payloadLength], after[h.value.payloadLength..];
    assert after == payload + rest;
    assert buf == EncodeHeader(h.value) + payload + rest;
  }

  /** The decoder fails as trailing exactly on lists whose payload is overlong. */
  lemma TrailingExactly(buf: seq<byte>)
    ensures DecodeTx(buf).outcome == Err(TrailingBytes) <==>
              exists payload, rest, tx, extra :: ListForm(buf, payload, rest) && Overlong(payload, tx, extra)
  {
    hide DecodeTx, DecodePayload, Overlong, ListForm;
    if DecodeTx(buf).outcome == Err(TrailingBytes) {
      var payload, rest := TrailingList(buf);
      var tx, extra := TrailingWitness(payload);
    }
    forall payload, rest, tx, extra | ListForm(buf, payload, rest) && Overlong(payload, tx, extra)
      ensures DecodeTx(buf).outcome == Err(TrailingBytes)
    {
      ListFormRead(buf, payload, rest);
      OverlongRejected(payload, tx, extra);
    }
  }

  lemma FitsPrefix(xs: seq<seq<byte>>, ys: seq<seq<byte>>)
    requires ListFits(xs + ys)
    ensures ListFits(xs)
  {
    hide EncodeAll;
    EncodableParts(xs, ys);
    EncodeAllAppend(xs, ys);
  }

  lemma SameHead(tx: Tx)
    ensures Items(tx.Unsigned()) == HeadItems(tx)
  {
  }

  /** The unsigned copy of whatever was decoded can be encoded, so its hash can always be taken. */
  lemma DecodedUnsignedFits(buf: seq<byte>)
    requires DecodeTx(buf).outcome.Ok?
    ensures Fits(DecodeTx(buf).outcome.value.Unsigned())
  {
    hide DecodeTx, EncodeList, LegacyTailItems, HeadItems, ListFits;
    var tx := DecodeTx(buf).outcome.value;
    AcceptedForms(buf);
    var tail := if tx.HasSignature() then LegacyTailItems(tx) + [tx.pubKey.UnwrapOr([])] else [];
    if Fits(tx) {
      FitsPrefix(HeadItems(tx), tail);
    } else {
      FitsPrefix(HeadItems(tx), LegacyTailItems(tx));
    }
    SameHead(tx);
  }

  // ---- refusals --------------------------------------------------------------------

  lemma StringHeader(s: seq<byte>, rest: seq<byte>)
    requires |s| == 1
    ensures DecodeHeader(EncodeString(s) + rest).outcome == Ok(Header(false, 1))
  {
    hide DecodeLongLength;
  }

  /** A string in place of the list. */
  lemma StringRefused(s: seq<byte>, rest: seq<byte>)
    requires |s| < LENGTH_LIMIT
    ensures DecodeTx(EncodeString(s) + rest).outcome == Err(UnexpectedString)
  {
    hide DecodePayload, EncodeHeader, DecodeHeader;
    var buf := EncodeString(s) + rest;
    if |s| == 1 {
      StringHeader(s, rest);
    } else {
      HeaderRoundTrip(Header(false, |s|), s + rest);
      assert buf == EncodeHeader(Header(false, |s|)) + (s + rest);
    }
  }

  /** A list that declares more than there is, at any length. */
  lemma ShortListRefused(n: nat, after: seq<byte>)
    requires |after| < n < LENGTH_LIMIT
    ensures DecodeTx(EncodeHeader(Header(true, n)) + after) == Parsed(Err(InputTooShort), after)
  {
    hide DecodePayload, EncodeHeader, DecodeHeader;
    HeaderRoundTrip(Header(true, n), after);
  }

  lemma RecipientField(buf: seq<byte>, recipient: seq<byte>, more: seq<byte>)
    requires DecodeString(buf) == Parsed(Ok(recipient), more) && |recipient| != 0 && |recipient| != 20
    ensures DecodeFields(HEAD[5..], buf).outcome == Err(UnexpectedLength)
  {
    hide DecodeString;
    assert HEAD[5..][0] == Recipient;
  }

  /** A recipient that is neither empty nor twenty bytes long, whatever follows. */
  lemma RecipientRefused(tx: Tx, recipient: seq<byte>, more: seq<byte>)
    requires |recipient| != 0 && |recipient| != 20 && |recipient| < LENGTH_LIMIT
    requires Encodable(HeadItems(tx)[..5])
    ensures DecodePayload(EncodeAll(HeadItems(tx)[..5]) + (EncodeString(recipient) + more)) == Err(UnexpectedLength)
  {
    hide DecodeFields, EncodeAll, HeadItems, EncodeString, DecodeString;
    var front, body := HeadItems(tx)[..5], EncodeAll(HeadItems(tx)[..5]) + (EncodeString(recipient) + more);
    HeadOfTx(tx);
    FieldsRoundTrip(HEAD[..5], front, EncodeString(recipient) + more);
    StringRoundTrip(recipient, more);
    RecipientField(EncodeString(recipient) + more, recipient, more);
    assert HEAD == HEAD[..5] + HEAD[5..];
    FieldsSplit(HEAD[..5], HEAD[5..], body);
  }

  // ---- the layout, written out -------------------------------------------------------

  /** Which field is written where in the list, and when the last five are. */
  lemma EncodedAsWritten(tx: Tx)
    requires Fits(tx)
    ensures var to := if tx.to.Some? then tx.to.value else [];
            var head := [ToBE(tx.chainId), ToBE(tx.nonce), ToBE(tx.maxPriorityFeePerGas), ToBE(tx.maxFeePerGas),
                         ToBE(tx.gasLimit), to, ToBE(tx.value), tx.data];
            var sig := if tx.pqcSignature.Some? then tx.pqcSignature.value else [];
            var key := if tx.pubKey.Some? then tx.pubKey.value else [];
            var items := if tx.v.None? && tx.pqcSignature.None? then head
                         else head + [ToBE(if tx.v.Some? then tx.v.value else 0),
                                      ToBE(if tx.r.Some? then tx.r.value else 0),
                                      ToBE(if tx.s.Some? then tx.s.value else 0), sig, key];
            && ListFits(items)
            && EncodeTx(tx) == EncodeHeader(Header(true, |EncodeAll(items)|)) + EncodeAll(items)
  {
    hide ToBE, EncodeHeader, EncodeAll, Encodable;
    assert tx.HasSignature() ==>
        Items(tx) == HeadItems(tx) + [ToBE(tx.v.UnwrapOr(0)), ToBE(tx.r.UnwrapOr(0)), ToBE(tx.s.UnwrapOr(0)),
                                      tx.pqcSignature.UnwrapOr([]), tx.pubKey.UnwrapOr([])];
    assert !tx.HasSignature() ==> Items(tx) == HeadItems(tx);
  }

  /** What comes back, field by field. */
  lemma DecodedAsWritten(tx: Tx, rest: seq<byte>)
    requires Fits(tx)
    ensures DecodeTx(EncodeTx(tx) + rest).outcome.Ok? && DecodeTx(EncodeTx(tx) + rest).rest == rest
    ensures var got := DecodeTx(EncodeTx(tx) + rest).outcome.value;
            && got.chainId == tx.chainId && got.nonce == tx.nonce && got.gasLimit == tx.gasLimit
            && got.maxPriorityFeePerGas == tx.maxPriorityFeePerGas && got.maxFeePerGas == tx.maxFeePerGas
            && got.to == tx.to && got.value == tx.value && got.data == tx.data
    ensures var got := DecodeTx(EncodeTx(tx) + rest).outcome.value;
            if tx.v.None? && tx.pqcSignature.None? then
              && got.v == None && got.r == None && got.s == None && got.pqcSignature == None && got.pubKey == None
            else
              && got.v == Some(if tx.v.Some? then tx.v.value else 0)
              && got.r == Some(if tx.r.Some? then tx.r.value else 0)
              && got.s == Some(if tx.s.Some? then tx.s.value else 0)
              && got.pqcSignature == Some(if tx.pqcSignature.Some? then tx.pqcSignature.value else [])
              && got.pubKey == if tx.pubKey == Some([]) then None else tx.pubKey
  {
    hide DecodeTx, EncodeTx, Fits;
    RoundTrip(tx, rest);
  }

  lemma SmallUint(n: nat)
    requires 0 < n < 128
    ensures ToBE(n) == [n]
  {
    assert ToBE(n / 256) == [];
  }

  /** Bytes below 0x80 are written without a prefix. */
  lemma {:induction false} OneByteItems(items: seq<seq<byte>>, bytes: seq<byte>)
    requires |items| == |bytes| && forall i | 0 <= i < |items| :: 0 < bytes[i] < 128 && items[i] == [bytes[i]]
    ensures Encodable(items) && EncodeAll(items) == bytes
  {
    if items == [] {
    } else {
      OneByteItems(items[1..], bytes[1..]);
      assert EncodeString(items[0]) == [bytes[0]];
    }
  }

  const EXAMPLE: Tx := Tx(1, 2, 3, 4, 5, None, 6, [7], Some(8), Some(9), Some(10), Some([11]), Some([12]))

  lemma ExampleItems()
    ensures HeadItems(EXAMPLE) == [[1], [2], [3], [4], [5]] + [[]] + [[6], [7]]
    ensures Items(EXAMPLE.Unsigned()) == HeadItems(EXAMPLE)
    ensures Items(EXAMPLE) == HeadItems(EXAMPLE) + [[8], [9], [10], [11], [12]]
  {
    hide ToBE;
    forall n: nat | 0 < n < 128
      ensures ToBE(n) == [n]
    {
      SmallUint(n);
    }
  }

  lemma EncodableJoin(xs: seq<seq<byte>>, ys: seq<seq<byte>>)
    requires Encodable(xs) && Encodable(ys)
    ensures Encodable(xs + ys)
  {
  }

  lemma EmptyItem()
    ensures Encodable([[]]) && EncodeAll([[]]) == [0x80]
  {
    hide EncodeString;
    Examples();
    assert EncodeAll([[]]) == EncodeString([]) + EncodeAll([]);
  }

  lemma ExampleHead()
    ensures Encodable(HeadItems(EXAMPLE))
    ensures EncodeAll(HeadItems(EXAMPLE)) == [1, 2, 3, 4, 5, 0x80, 6, 7]
  {
    hide HeadItems, EncodeAll, Encodable;
    ExampleItems();
    var low, empty, high := [[1], [2], [3], [4], [5]], [[]], [[6], [7]];
    OneByteItems(low, [1, 2, 3, 4, 5]);
    EmptyItem();
    OneByteItems(high, [6, 7]);
    EncodableJoin(low, empty);
    EncodableJoin(low + empty, high);
    EncodeAllAppend(low, empty);
    EncodeAllAppend(low + empty, high);
  }

  /** Twelve one-byte items and the empty recipient of a contract creation; then without the last five. */
  lemma ExampleEncoding()
    ensures Fits(EXAMPLE) && Fits(EXAMPLE.Unsigned())
    ensures EncodeTx(EXAMPLE) == [0xCD, 1, 2, 3, 4, 5, 0x80, 6, 7, 8, 9, 10, 11, 12]
    ensures EncodeTx(EXAMPLE.Unsigned()) == [0xC8, 1, 2, 3, 4, 5, 0x80, 6, 7]
  {
    hide EncodeAll, HeadItems, Items, ToBE, Encodable;
    ExampleItems();
    ExampleHead();
    var tail := [[8], [9], [10], [11], [12]];
    OneByteItems(tail, [8, 9, 10, 11, 12]);
    EncodeAllAppend(HeadItems(EXAMPLE), tail);
    EncodableJoin(HeadItems(EXAMPLE), tail);
  }
}
