/**
 Recursive Length Prefix items, as defined in Appendix B of the Ethereum Yellow Paper.

 The repository calls the `alloy_rlp` crate for these; its source is not part of this
 model, so this module is an assumption about that library, written out concretely:
 canonical strings, integers without leading zeros, minimal length-of-length, no prefix on
 a single byte below 0x80, at most eight length bytes. Everything the repository builds on
 top lives in module Transaction.
 */
module Rlp {
  import opened Outcomes
  import opened Bytes

  /** One more than the largest length a header can declare (and a 64-bit usize can hold). */
  const LENGTH_LIMIT: nat := 0x1_0000_0000_0000_0000

  datatype RlpError =
    | InputTooShort
    | UnexpectedString
    | UnexpectedList
    | UnexpectedLength
    | NonCanonicalSingleByte
    | NonCanonicalSize
    | LeadingZero
    | Overflow
    | TrailingBytes

  datatype Header = Header(list: bool, payloadLength: nat)

  /** The outcome of a read and the bytes the cursor has left, on failure too. */
  datatype Parsed<+T> = Parsed(outcome: Result<T, RlpError>, rest: seq<byte>) {
    predicate IsFailure() {
      outcome.Err?
    }

    function PropagateFailure<U>(): Parsed<U>
      requires outcome.Err?
    {
      Parsed(Err(outcome.error), rest)
    }

    function Extract(): (T, seq<byte>)
      requires outcome.Ok?
    {
      (outcome.value, rest)
    }
  }

  // ---- writing -------------------------------------------------------------

  lemma LengthBytes(n: nat)
    ensures n < LENGTH_LIMIT <==> |ToBE(n)| <= 8
    ensures n > 0 ==> |ToBE(n)| > 0
  {
    Widths();
    BELength(n, 8);
  }

  function EncodeHeader(h: Header): seq<byte>
    requires h.payloadLength < LENGTH_LIMIT
  {
    var base := if h.list then 0xC0 else 0x80;
    if h.payloadLength < 56 then
      [base + h.payloadLength]
    else
      LengthBytes(h.payloadLength);
      [base + 55 + |ToBE(h.payloadLength)|] + ToBE(h.payloadLength)
  }

  function EncodeString(s: seq<byte>): seq<byte>
    requires |s| < LENGTH_LIMIT
  {
    if |s| == 1 && s[0] < 0x80 then s else EncodeHeader(Header(false, |s|)) + s
  }

  function EncodeUint(n: nat): seq<byte>
    requires |ToBE(n)| < LENGTH_LIMIT
  {
    EncodeString(ToBE(n))
  }

  /** The prefixes of Appendix B: 0x80 and 0xC0 with a length below 56, 0xB7 and 0xF7 with a length of length. */
  lemma HeaderAsWritten(n: nat)
    requires n < LENGTH_LIMIT
    ensures n < 56 ==> EncodeHeader(Header(false, n)) == [0x80 + n] && EncodeHeader(Header(true, n)) == [0xC0 + n]
    ensures n >= 56 ==>
              && 1 <= |ToBE(n)| <= 8
              && EncodeHeader(Header(false, n)) == [0xB7 + |ToBE(n)|] + ToBE(n)
              && EncodeHeader(Header(true, n)) == [0xF7 + |ToBE(n)|] + ToBE(n)
  {
    hide ToBE;
    LengthBytes(n);
  }

  /** Examples of that appendix's rules: "dog", the empty string, zero, fifteen, 1024. */
  lemma Examples()
    ensures EncodeString([100, 111, 103]) == [0x83, 100, 111, 103]
    ensures EncodeString([]) == [0x80] && EncodeString([0]) == [0] && EncodeString([0x80]) == [0x81, 0x80]
    ensures ToBE(0) == [] && ToBE(15) == [15] && ToBE(1024) == [4, 0]
    ensures EncodeString([4, 0]) == [0x82, 4, 0]
  {
    assert ToBE(4) == ToBE(0) + [4] && ToBE(15) == ToBE(0) + [15];
    assert ToBE(1024) == ToBE(4) + [0];
  }

  // ---- the library's length rules -------------------------------------------

  /** `length_of_length`: the size of the header in front of a payload. */
  function LengthOfLength(payloadLength: nat): nat {
    if payloadLength < 56 then 1 else 1 + |ToBE(payloadLength)|
  }

  function StringLength(s: seq<byte>): nat {
    if |s| == 1 && s[0] < 0x80 then 1 else LengthOfLength(|s|) + |s|
  }

  function UintLength(n: nat): nat {
    if n < 0x80 then 1 else LengthOfLength(|ToBE(n)|) + |ToBE(n)|
  }

  lemma HeaderLengthAgrees(h: Header)
    requires h.payloadLength < LENGTH_LIMIT
    ensures |EncodeHeader(h)| == LengthOfLength(h.payloadLength)
  {
  }

  lemma StringLengthAgrees(s: seq<byte>)
    requires |s| < LENGTH_LIMIT
    ensures StringLength(s) == |EncodeString(s)|
  {
    hide EncodeHeader, LengthOfLength;
    HeaderLengthAgrees(Header(false, |s|));
  }

  /** The integer rule is the string rule on the minimal big-endian form. */
  lemma UintLengthAgrees(n: nat)
    requires |ToBE(n)| < LENGTH_LIMIT
    ensures UintLength(n) == |EncodeUint(n)|
  {
    FromToBE(n);
    BELength(n, 1);
    assert Pow256(1) == 256 * Pow256(0);
    if 0 < n < 256 {
      assert ToBE(n / 256) == [];
      assert ToBE(n) == [n];
    }
  }

  // ---- reading ---------------------------------------------------------------

  function DecodeLongLength(list: bool, width: nat, buf: seq<byte>): Parsed<Header>
    requires 1 <= width
  {
    if |buf| < width then Parsed(Err(InputTooShort), buf)
    else if buf[0] == 0 then Parsed(Err(LeadingZero), buf[width..])
    else if FromBE(buf[..width]) < 56 then Parsed(Err(NonCanonicalSize), buf[width..])
    else Parsed(Ok(Header(list, FromBE(buf[..width]))), buf[width..])
  }

  function DecodeHeader(buf: seq<byte>): Parsed<Header> {
    if buf == [] then Parsed(Err(InputTooShort), buf)
    else
      var b, after := buf[0], buf[1..];
      if b < 0x80 then Parsed(Ok(Header(false, 1)), buf)
      else if b <= 0xB7 then
        if b == 0x81 && after == [] then Parsed(Err(InputTooShort), after)
        else if b == 0x81 && after[0] < 0x80 then Parsed(Err(NonCanonicalSingleByte), after)
        else Parsed(Ok(Header(false, b - 0x80)), after)
      else if b <= 0xBF then DecodeLongLength(false, b - 0xB7, after)
      else if b <= 0xF7 then Parsed(Ok(Header(true, b - 0xC0)), after)
      else DecodeLongLength(true, b - 0xF7, after)
  }

  function DecodeString(buf: seq<byte>): Parsed<seq<byte>> {
    var (h, after) :- DecodeHeader(buf);
    if h.list then Parsed(Err(UnexpectedList), after)
    else if |after| < h.payloadLength then Parsed(Err(InputTooShort), after)
    else Parsed(Ok(after[..h.payloadLength]), after[h.payloadLength..])
  }

  /** How a field restricts the string it is read from. */
  datatype Field =
    | Uint(width: nat)   // at most `width` bytes and no leading zero
    | Text               // any string
    | Recipient          // empty, or an address of 20 bytes

  function FieldCheck(f: Field, s: seq<byte>): Option<RlpError> {
    match f
    case Uint(width) =>
      if |s| > width then Some(Overflow)
      else if s != [] && s[0] == 0 then Some(LeadingZero)
      else None
    case Text => None
    case Recipient => if |s| == 0 || |s| == 20 then None else Some(UnexpectedLength)
  }

  function DecodeField(f: Field, buf: seq<byte>): Parsed<seq<byte>> {
    var (s, after) :- DecodeString(buf);
    match FieldCheck(f, s)
    case Some(e) => Parsed(Err(e), after)
    case None => Parsed(Ok(s), after)
  }

  /** The strings pass the checks of their fields. */
  predicate Conforms(fs: seq<Field>, items: seq<seq<byte>>) {
    && |fs| == |items|
    && forall i | 0 <= i < |fs| :: FieldCheck(fs[i], items[i]) == None
  }

  /** Reads one string per field, stopping at the first error. */
  function DecodeFields(fs: seq<Field>, buf: seq<byte>): (p: Parsed<seq<seq<byte>>>)
    ensures p.outcome.Ok? ==> Conforms(fs, p.outcome.value)
  {
    if fs == [] then Parsed(Ok([]), buf)
    else
      var (s, after) :- DecodeField(fs[0], buf);
      var (ss, rest) :- DecodeFields(fs[1..], after);
      Parsed(Ok([s] + ss), rest)
  }

  // ---- round trip and canonicality, item by item --------------------------------

  lemma HeaderRoundTrip(h: Header, rest: seq<byte>)
    requires h.payloadLength < LENGTH_LIMIT
    requires h.list || h.payloadLength != 1
    ensures DecodeHeader(EncodeHeader(h) + rest) == Parsed(Ok(h), rest)
  {
    hide ToBE, FromBE;
    var n := h.payloadLength;
    var buf := EncodeHeader(h) + rest;
    if n < 56 {
      assert buf[1..] == rest;
    } else {
      LengthBytes(n);
      FromToBE(n);
      assert buf[1..] == ToBE(n) + rest;
      assert (ToBE(n) + rest)[..|ToBE(n)|] == ToBE(n);
      assert (ToBE(n) + rest)[|ToBE(n)|..] == rest;
    }
  }

  lemma LongLengthCanonical(list: bool, width: nat, buf: seq<byte>)
    requires 1 <= width <= 8
    requires DecodeLongLength(list, width, buf).outcome.Ok?
    ensures var Parsed(o, after) := DecodeLongLength(list, width, buf);
            var n := o.value.payloadLength;
            && o.value.list == list && 56 <= n < LENGTH_LIMIT
            && |ToBE(n)| == width
            && buf == ToBE(n) + after
  {
    var s := buf[..width];
    ToFromBE(s);
    LengthBytes(FromBE(s));
    assert buf == s + buf[width..];
  }

  /** A header that was read is the canonical header of what it declares. */
  lemma HeaderCanonical(buf: seq<byte>)
    requires DecodeHeader(buf).outcome.Ok?
    ensures var Parsed(o, after) := DecodeHeader(buf);
            var h := o.value;
            && h.payloadLength < LENGTH_LIMIT
            && (buf == EncodeHeader(h) + after
                || (h == Header(false, 1) && after == buf && buf[0] < 0x80))
            && (h == Header(false, 1) && after != buf ==> after != [] && after[0] >= 0x80)
  {
    hide DecodeLongLength, ToBE;
    var b, tail := buf[0], buf[1..];
    assert buf == [b] + tail;
    if 0xB7 < b <= 0xBF {
      LongLengthCanonical(false, b - 0xB7, tail);
    } else if 0xF7 < b {
      LongLengthCanonical(true, b - 0xF7, tail);
    }
  }

  lemma StringRoundTrip(s: seq<byte>, rest: seq<byte>)
    requires |s| < LENGTH_LIMIT
    ensures DecodeString(EncodeString(s) + rest) == Parsed(Ok(s), rest)
  {
    hide DecodeLongLength, ToBE, FromBE;
    var buf := EncodeString(s) + rest;
    if |s| == 1 {
      if s[0] < 0x80 {
        assert buf[..1] == s && buf[1..] == rest;
      } else {
        assert buf == [0x81] + (s + rest);
        assert buf[1..] == s + rest;
        assert (s + rest)[..1] == s && (s + rest)[1..] == rest;
      }
    } else {
      HeaderRoundTrip(Header(false, |s|), s + rest);
      assert buf == EncodeHeader(Header(false, |s|)) + (s + rest);
      assert (s + rest)[..|s|] == s && (s + rest)[|s|..] == rest;
    }
  }

  lemma StringFromParts(buf: seq<byte>, n: nat, payload: seq<byte>)
    requires n < LENGTH_LIMIT && n <= |payload|
    requires || buf == EncodeHeader(Header(false, n)) + payload
             || (n == 1 && payload == buf && buf[0] < 0x80)
    requires n == 1 && payload != buf ==> payload[0] >= 0x80
    ensures buf == EncodeString(payload[..n]) + payload[n..]
  {
    var s, after := payload[..n], payload[n..];
    assert payload == s + after;
    if n == 1 && payload == buf && buf[0] < 0x80 {
      assert EncodeString(s) == s;
    } else {
      assert |EncodeHeader(Header(false, n))| > 0;
      assert EncodeString(s) == EncodeHeader(Header(false, n)) + s;
      assert EncodeHeader(Header(false, n)) + (s + after) == (EncodeHeader(Header(false, n)) + s) + after;
    }
  }

  lemma StringCanonical(buf: seq<byte>)
    requires DecodeString(buf).outcome.Ok?
    ensures var Parsed(o, after) := DecodeString(buf);
            |o.value| < LENGTH_LIMIT && buf == EncodeString(o.value) + after
  {
    HeaderCanonical(buf);
    var Parsed(o, payload) := DecodeHeader(buf);
    StringFromParts(buf, o.value.payloadLength, payload);
  }

  // ---- sequences of items -------------------------------------------------------

  ghost predicate Encodable(items: seq<seq<byte>>) {
    forall i | 0 <= i < |items| :: |items[i]| < LENGTH_LIMIT
  }

  /** The concatenated encodings of a list of strings. */
  function EncodeAll(items: seq<seq<byte>>): seq<byte>
    requires Encodable(items)
  {
    if items == [] then [] else EncodeString(items[0]) + EncodeAll(items[1..])
  }

  lemma {:induction false} EncodeAllAppend(xs: seq<seq<byte>>, ys: seq<seq<byte>>)
    requires Encodable(xs) && Encodable(ys)
    ensures EncodeAll(xs + ys) == EncodeAll(xs) + EncodeAll(ys)
  {
    if xs == [] {
      assert xs + ys == ys;
    } else {
      EncodeAllAppend(xs[1..], ys);
      assert (xs + ys)[1..] == xs[1..] + ys;
    }
  }

  /** What was written field by field is read back, and the cursor stops right behind it. */
  lemma {:induction false} FieldsRoundTrip(fs: seq<Field>, items: seq<seq<byte>>, rest: seq<byte>)
    requires Encodable(items) && Conforms(fs, items)
    ensures DecodeFields(fs, EncodeAll(items) + rest) == Parsed(Ok(items), rest)
  {
    hide DecodeString, EncodeString;
    if fs == [] {
      assert EncodeAll(items) + rest == rest;
    } else {
      var behind := EncodeAll(items[1..]) + rest;
      assert EncodeAll(items) + rest == EncodeString(items[0]) + behind;
      StringRoundTrip(items[0], behind);
      FieldsRoundTrip(fs[1..], items[1..], rest);
      assert [items[0]] + items[1..] == items;
    }
  }

  /** What was read field by field is the canonical encoding of the strings it gave. */
  lemma {:induction false} FieldsCanonical(fs: seq<Field>, buf: seq<byte>)
    requires DecodeFields(fs, buf).outcome.Ok?
    ensures var Parsed(o, rest) := DecodeFields(fs, buf);
            && Encodable(o.value) && Conforms(fs, o.value)
            && buf == EncodeAll(o.value) + rest
  {
    hide DecodeString, EncodeString;
    if fs == [] {
    } else {
      var Parsed(head, after) := DecodeField(fs[0], buf);
      var Parsed(tail, rest) := DecodeFields(fs[1..], after);
      StringCanonical(buf);
      FieldsCanonical(fs[1..], after);
      assert ([head.value] + tail.value)[1..] == tail.value;
      assert buf == EncodeString(head.value) + (EncodeAll(tail.value) + rest);
    }
  }

  /** Reading a list of fields in two parts. */
  lemma {:induction false} FieldsSplit(fs: seq<Field>, gs: seq<Field>, buf: seq<byte>)
    ensures var first := DecodeFields(fs, buf);
            var both := DecodeFields(fs + gs, buf);
            if first.outcome.Err? then both == first
            else
              var second := DecodeFields(gs, first.rest);
              if second.outcome.Err? then both == second
              else both == Parsed(Ok(first.outcome.value + second.outcome.value), second.rest)
  {
    hide DecodeField, Conforms, FieldCheck;
    if fs == [] {
      assert fs + gs == gs;
      if DecodeFields(gs, buf).outcome.Ok? {
        assert [] + DecodeFields(gs, buf).outcome.value == DecodeFields(gs, buf).outcome.value;
      }
    } else {
      assert (fs + gs)[1..] == fs[1..] + gs;
      var head := DecodeField(fs[0], buf);
      if head.outcome.Ok? {
        FieldsSplit(fs[1..], gs, head.rest);
        var first, second := DecodeFields(fs[1..], head.rest), DecodeFields(gs, DecodeFields(fs[1..], head.rest).rest);
        if first.outcome.Ok? && second.outcome.Ok? {
          assert ([head.outcome.value] + first.outcome.value) + second.outcome.value
              == [head.outcome.value] + (first.outcome.value + second.outcome.value);
        }
      }
    }
  }

  /** An integer of too many bytes overflows; one that fits must not start with a zero byte. */
  lemma IntegerRefused(width: nat, s: seq<byte>, rest: seq<byte>)
    requires |s| < LENGTH_LIMIT
    ensures DecodeField(Uint(width), EncodeString(s) + rest).outcome
         == if |s| > width then Err(Overflow) else if |s| > 0 && s[0] == 0 then Err(LeadingZero) else Ok(s)
  {
    hide EncodeString, DecodeString;
    StringRoundTrip(s, rest);
  }

  lemma HeaderNeverTrails(buf: seq<byte>)
    ensures DecodeHeader(buf).outcome != Err(TrailingBytes)
  {
    hide FromBE;
  }

  lemma FieldNeverTrails(f: Field, buf: seq<byte>)
    ensures DecodeField(f, buf).outcome != Err(TrailingBytes)
  {
    hide DecodeHeader;
    HeaderNeverTrails(buf);
  }

  /** Reading fields never fails as trailing: only the caller raises that error. */
  lemma {:induction false} FieldsNeverTrail(fs: seq<Field>, buf: seq<byte>)
    ensures DecodeFields(fs, buf).outcome != Err(TrailingBytes)
  {
    hide DecodeField, Conforms;
    if fs == [] {
    } else {
      FieldNeverTrails(fs[0], buf);
      FieldsNeverTrail(fs[1..], DecodeField(fs[0], buf).rest);
    }
  }

  /** How many strings a payload consists of, or None if it is not a sequence of strings. */
  function CountItems(buf: seq<byte>): Option<nat>
    decreases |buf|
  {
    if buf == [] then Some(0)
    else
      var Parsed(o, after) := DecodeString(buf);
      if o.Err? || |after| >= |buf| then None
      else match CountItems(after)
        case None => None
        case Some(n) => Some(n + 1)
  }

  lemma {:induction false} CountItemsOfEncodeAll(items: seq<seq<byte>>)
    requires Encodable(items)
    ensures CountItems(EncodeAll(items)) == Some(|items|)
  {
    if items == [] {
    } else {
      StringRoundTrip(items[0], EncodeAll(items[1..]));
      CountItemsOfEncodeAll(items[1..]);
    }
  }
}
