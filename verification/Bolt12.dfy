/** BOLT12 payloads on top of TLV streams: truncated integers, blinded paths, offer identifiers
    and invoice requests. Text in Rust strings is UTF-8 bytes; hex fields are hex text.
  */
module Bolt12 {
  import opened Prelude
  import opened Tlv
  import Hex
  import Utf8

  const TLV_SIGNATURE: nat := 240
  const TLV_INVREQ_METADATA: nat := 0
  const TLV_INVREQ_OFFER_ID: nat := 2
  const TLV_INVREQ_AMOUNT: nat := 4
  const TLV_INVREQ_QUANTITY: nat := 8
  const TLV_INVREQ_PAYER_ID: nat := 10
  const TLV_INVREQ_PAYER_NOTE: nat := 12

  // ---------------------------------------------------------------------------------------
  // Truncated integers
  // ---------------------------------------------------------------------------------------

  function Tu64(val: nat): Bytes {
    if val == 0 then [] else Tu64(val / 256) + [val % 256]
  }

  function Zeros(n: nat): Bytes {
    seq(n, _ => 0)
  }

  /** The bytes are copied to the end of an 8-byte buffer. */
  function ReadTu64(bytes: Bytes): Option<nat> {
    if |bytes| > 8 then None
    else if bytes == [] then Some(0)
    else Some(FromBigEndian(Zeros(8 - |bytes|) + bytes))
  }

  function Reversed(s: Bytes): Bytes {
    if s == [] then [] else Reversed(s[1..]) + [s[0]]
  }

  lemma {:induction false} ReversedSnoc(s: Bytes, b: Byte)
    ensures Reversed(s + [b]) == [b] + Reversed(s)
  {
    if s != [] {
      ReversedSnoc(s[1..], b);
      assert (s + [b])[1..] == s[1..] + [b];
    }
  }

  method WriteTu64(val: nat) returns (bytes: Bytes)
    ensures bytes == Tu64(val)
  {
    if val == 0 {
      return [];
    }
    var v := val;
    var low: Bytes := [];
    while v > 0
      invariant Tu64(v) + Reversed(low) == Tu64(val)
      decreases v
    {
      ReversedSnoc(low, v % 256);
      assert Tu64(v) + Reversed(low) == Tu64(v / 256) + ([v % 256] + Reversed(low));
      low := low + [v % 256];
      v := v / 256;
    }
    bytes := Reversed(low);
  }

  lemma {:induction false} ZerosCount(n: nat, bytes: Bytes)
    ensures FromBigEndian(Zeros(n) + bytes) == FromBigEndian(bytes)
    decreases |bytes|
  {
    var padded := Zeros(n) + bytes;
    if bytes == [] {
      assert padded == Zeros(n);
      ZerosAreZero(n);
    } else {
      assert padded[..|padded| - 1] == Zeros(n) + bytes[..|bytes| - 1];
      ZerosCount(n, bytes[..|bytes| - 1]);
    }
  }

  lemma {:induction false} ZerosAreZero(n: nat)
    ensures FromBigEndian(Zeros(n)) == 0
  {
    if n > 0 {
      assert Zeros(n)[..n - 1] == Zeros(n - 1);
      ZerosAreZero(n - 1);
    }
  }

  lemma {:induction false} Tu64Fits(val: nat, len: nat)
    requires val < Pow256(len)
    ensures |Tu64(val)| <= len
  {
    if val > 0 {
      Tu64Fits(val / 256, len - 1);
    }
  }

  lemma {:induction false} Tu64Value(val: nat)
    ensures FromBigEndian(Tu64(val)) == val
  {
    if val > 0 {
      Tu64Value(val / 256);
      assert Tu64(val)[..|Tu64(val)| - 1] == Tu64(val / 256);
    }
  }

  /** Every 64-bit number, zero included, reads back from its truncated form. */
  lemma Tu64RoundTrip(val: nat)
    requires val <= U64_MAX
    ensures ReadTu64(Tu64(val)) == Some(val)
  {
    BigEndianBounds();
    hide Pow256;
    Tu64Fits(val, 8);
    Tu64Value(val);
    if val > 0 {
      ZerosCount(8 - |Tu64(val)|, Tu64(val));
    }
  }

  lemma {:induction false} NonzeroStart(bytes: Bytes)
    requires bytes != [] && bytes[0] > 0
    ensures FromBigEndian(bytes) > 0
  {
    if |bytes| > 1 {
      NonzeroStart(bytes[..|bytes| - 1]);
    }
  }

  lemma {:induction false} Tu64Start(val: nat)
    ensures val > 0 ==> Tu64(val) != [] && Tu64(val)[0] > 0
  {
    if val >= 256 {
      Tu64Start(val / 256);
    }
  }

  lemma {:induction false} Tu64OfValue(bytes: Bytes)
    ensures Tu64(FromBigEndian(bytes)) == bytes <==> bytes == [] || bytes[0] > 0
  {
    Tu64Start(FromBigEndian(bytes));
    if bytes != [] && bytes[0] > 0 {
      NonzeroStart(bytes);
      var front := bytes[..|bytes| - 1];
      Tu64OfValue(front);
      assert bytes == front + [bytes[|bytes| - 1]];
    }
  }

  /** Of all byte strings the reader accepts, exactly those without a leading zero are what the
      writer produces. */
  lemma Tu64Canonical(bytes: Bytes)
    requires ReadTu64(bytes).Some?
    ensures Tu64(ReadTu64(bytes).value) == bytes <==> bytes == [] || bytes[0] > 0
  {
    Tu64OfValue(bytes);
    if bytes != [] {
      ZerosCount(8 - |bytes|, bytes);
    }
  }

  // ---------------------------------------------------------------------------------------
  // Offer identifiers
  // ---------------------------------------------------------------------------------------

  function Unsigned(rs: seq<TlvRecord>): seq<TlvRecord> {
    if rs == [] then []
    else Unsigned(rs[..|rs| - 1]) + if rs[|rs| - 1].tag != TLV_SIGNATURE then [rs[|rs| - 1]] else []
  }

  method WithoutSignatures(rs: seq<TlvRecord>) returns (unsigned: seq<TlvRecord>)
    ensures unsigned == Unsigned(rs)
  {
    unsigned := [];
    for i := 0 to |rs|
      invariant unsigned == Unsigned(rs[..i])
    {
      assert rs[..i + 1][..i] == rs[..i];
      if rs[i].tag != TLV_SIGNATURE {
        unsigned := unsigned + [rs[i]];
      }
    }
    assert rs[..|rs|] == rs;
  }

  /** The bytes whose hash identifies an offer. */
  function OfferIdPreimage(raw: Bytes): Option<Bytes> {
    if DecodeStream(raw).None? then None else Some(EncodeStream(Unsigned(DecodeStream(raw).value)))
  }

  method OfferId(raw: Bytes) returns (preimage: Option<Bytes>)
    ensures preimage == OfferIdPreimage(raw)
  {
    hide DecodeStream, EncodeStream;
    var records := DecodeTlvStream(raw);
    if records.None? {
      return None;
    }
    var rs := records.value;
    var unsigned := WithoutSignatures(rs);
    var bytes := EncodeTlvStream(unsigned);
    return Some(bytes);
  }

  lemma {:induction false} WithTagSnoc(rs: seq<TlvRecord>, r: TlvRecord, tag: nat)
    ensures WithTag(rs + [r], tag) == WithTag(rs, tag) + if r.tag == tag then [r] else []
  {
    if rs == [] {
      assert rs + [r] == [r];
    } else {
      WithTagSnoc(rs[1..], r, tag);
      assert (rs + [r])[1..] == rs[1..] + [r];
    }
  }

  lemma {:induction false} UnsignedTags(rs: seq<TlvRecord>, tag: nat)
    ensures WithTag(Unsigned(rs), tag) == if tag == TLV_SIGNATURE then [] else WithTag(rs, tag)
  {
    if rs != [] {
      var front, last := rs[..|rs| - 1], rs[|rs| - 1];
      UnsignedTags(front, tag);
      assert rs == front + [last];
      WithTagSnoc(front, last, tag);
      if last.tag != TLV_SIGNATURE {
        WithTagSnoc(Unsigned(front), last, tag);
      } else {
        assert Unsigned(rs) == Unsigned(front);
      }
    }
  }

  lemma {:induction false} UnsignedEncodable(rs: seq<TlvRecord>)
    requires Encodable(rs)
    ensures Encodable(Unsigned(rs))
  {
    if rs != [] {
      UnsignedEncodable(rs[..|rs| - 1]);
    }
  }

  ghost predicate SameByTag(a: seq<TlvRecord>, b: seq<TlvRecord>) {
    forall tag: nat :: WithTag(a, tag) == WithTag(b, tag)
  }

  lemma SameByTagSorted(a: seq<TlvRecord>, b: seq<TlvRecord>)
    ensures SameByTag(a, b) <==> StableSort(a) == StableSort(b)
  {
    SortOrders(a);
    SortOrders(b);
    hide StableSort, NonDecreasing, WithTag;
    forall tag: nat
      ensures WithTag(StableSort(a), tag) == WithTag(a, tag) && WithTag(StableSort(b), tag) == WithTag(b, tag)
    {
      SortIsStable(a, tag);
      SortIsStable(b, tag);
    }
    if SameByTag(a, b) {
      OrderedByTags(StableSort(a), StableSort(b));
    }
  }

  lemma EncodeStreamExact(a: seq<TlvRecord>, b: seq<TlvRecord>)
    requires Encodable(a) && Encodable(b)
    ensures EncodeStream(a) == EncodeStream(b) <==> SameByTag(a, b)
  {
    DecodeEncode(a);
    DecodeEncode(b);
    SameByTagSorted(a, b);
    hide DecodeStream, StableSort, SameByTag, Encodable;
  }

  /** The two record lists agree, tag by tag, on everything but signatures. */
  ghost predicate SameTerms(a: seq<TlvRecord>, b: seq<TlvRecord>) {
    forall tag: nat | tag != TLV_SIGNATURE :: WithTag(a, tag) == WithTag(b, tag)
  }

  lemma SameTermsUnsigned(a: seq<TlvRecord>, b: seq<TlvRecord>)
    ensures SameByTag(Unsigned(a), Unsigned(b)) <==> SameTerms(a, b)
  {
    hide WithTag, Unsigned;
    forall tag: nat
      ensures WithTag(Unsigned(a), tag) == if tag == TLV_SIGNATURE then [] else WithTag(a, tag)
      ensures WithTag(Unsigned(b), tag) == if tag == TLV_SIGNATURE then [] else WithTag(b, tag)
    {
      UnsignedTags(a, tag);
      UnsignedTags(b, tag);
    }
    if SameByTag(Unsigned(a), Unsigned(b)) {
      forall tag: nat | tag != TLV_SIGNATURE ensures WithTag(a, tag) == WithTag(b, tag) {
        assert WithTag(Unsigned(a), tag) == WithTag(Unsigned(b), tag);
      }
    }
  }

  /** Two offers have the same identifier exactly when, tag by tag and signatures apart, they hold
      the same records in the same order: signatures and the order between different tags do not
      matter, everything else does. */
  lemma {:induction false} OfferIdExact(raw1: Bytes, raw2: Bytes)
    requires DecodeStream(raw1).Some? && DecodeStream(raw2).Some?
    ensures OfferIdPreimage(raw1) == OfferIdPreimage(raw2)
        <==> SameTerms(DecodeStream(raw1).value, DecodeStream(raw2).value)
  {
    hide EncodeStream, DecodeStream, Unsigned, Encodable, SameByTag, SameTerms;
    var a, b := DecodeStream(raw1).value, DecodeStream(raw2).value;
    DecodedEncodable(raw1);
    DecodedEncodable(raw2);
    UnsignedEncodable(a);
    UnsignedEncodable(b);
    EncodeStreamExact(Unsigned(a), Unsigned(b));
    SameTermsUnsigned(a, b);
  }

  // ---------------------------------------------------------------------------------------
  // Blinded paths
  // ---------------------------------------------------------------------------------------

  const KEY_BYTES: nat := 33

  datatype BlindedHop = BlindedHop(blindedNodeId: string, encryptedPayload: string)

  datatype BlindedPath = BlindedPath(introductionNodeId: string, blindingPoint: Option<string>,
          blindedHops: seq<BlindedHop>)

  function EncodeHop(hop: BlindedHop): Option<Bytes> {
    var node, payload := Hex.Decode(hop.blindedNodeId), Hex.Decode(hop.encryptedPayload);
    if node.None? || payload.None? then None
    else Some(node.value + EncodeBigSize(|payload.value|) + payload.value)
  }

  function EncodeHops(hops: seq<BlindedHop>): Option<Bytes> {
    if hops == [] then Some([])
    else
      var rest, last := EncodeHops(hops[..|hops| - 1]), EncodeHop(hops[|hops| - 1]);
      if rest.None? || last.None? then None else Some(rest.value + last.value)
  }

  function EncodePath(path: BlindedPath): Option<Bytes> {
    var intro := Hex.Decode(path.introductionNodeId);
    var point := if path.blindingPoint.Some? then Hex.Decode(path.blindingPoint.value) else Some(Zeros(KEY_BYTES));
    var hops := EncodeHops(path.blindedHops);
    if intro.None? || point.None? || hops.None? then None
    else Some(intro.value + point.value + EncodeBigSize(|path.blindedHops|) + hops.value)
  }

  lemma {:induction false} HopsStopAtError(hops: seq<BlindedHop>, n: nat)
    requires n <= |hops| && EncodeHops(hops[..n]).None?
    ensures EncodeHops(hops).None?
    decreases |hops|
  {
    if n < |hops| {
      assert hops[..|hops| - 1][..n] == hops[..n];
      HopsStopAtError(hops[..|hops| - 1], n);
    } else {
      assert hops[..n] == hops;
    }
  }

  method EncodeOneHop(hop: BlindedHop, buf: ByteBuffer) returns (ok: bool)
    modifies buf
    ensures ok <==> EncodeHop(hop).Some?
    ensures ok ==> buf.bytes == old(buf.bytes) + EncodeHop(hop).value
  {
    var node := Hex.Decode(hop.blindedNodeId);
    if node.None? {
      return false;
    }
    buf.Extend(node.value);
    var payload := Hex.Decode(hop.encryptedPayload);
    if payload.None? {
      return false;
    }
    buf.WriteBigSize(|payload.value|);
    buf.Extend(payload.value);
    return true;
  }

  method EncodeBytes(path: BlindedPath) returns (bytes: Option<Bytes>)
    ensures bytes == EncodePath(path)
  {
    hide EncodeHop, EncodeBigSize, Hex.Decode;
    var buf := new ByteBuffer();
    var intro := Hex.Decode(path.introductionNodeId);
    if intro.None? {
      return None;
    }
    buf.Extend(intro.value);
    assert buf.bytes == intro.value;
    if path.blindingPoint.Some? {
      var point := Hex.Decode(path.blindingPoint.value);
      if point.None? {
        return None;
      }
      buf.Extend(point.value);
    } else {
      buf.Extend(Zeros(KEY_BYTES));
    }
    buf.WriteBigSize(|path.blindedHops|);
    ghost var header := buf.bytes;
    var hops := path.blindedHops;
    ghost var point := if path.blindingPoint.Some? then Hex.Decode(path.blindingPoint.value).value
                       else Zeros(KEY_BYTES);
    assert header == intro.value + point + EncodeBigSize(|path.blindedHops|) && header + [] == header;
    for i := 0 to |hops|
      invariant fresh(buf)
      invariant EncodeHops(hops[..i]).Some? && buf.bytes == header + EncodeHops(hops[..i]).value
    {
      assert hops[..i + 1][..i] == hops[..i];
      var encoded := EncodeOneHop(hops[i], buf);
      if !encoded {
        HopsStopAtError(hops, i + 1);
        return None;
      }
    }
    assert hops[..|hops|] == hops;
    return Some(buf.bytes);
  }

  function ParseHop(bytes: Bytes): Option<Parsed<BlindedHop>> {
    if |bytes| < KEY_BYTES then None
    else
      var len := ParseBigSize(bytes[KEY_BYTES..]);
      if len.None? || |len.value.rest| < len.value.value then None
      else Some(Parsed(BlindedHop(Hex.Encode(bytes[..KEY_BYTES]), Hex.Encode(len.value.rest[..len.value.value])),
                       len.value.rest[len.value.value..]))
  }

  function ParseHops(n: nat, bytes: Bytes): Option<Parsed<seq<BlindedHop>>> {
    if n == 0 then Some(Parsed([], bytes))
    else
      var first := ParseHop(bytes);
      if first.None? then None
      else
        var more := ParseHops(n - 1, first.value.rest);
        if more.None? then None else Some(Parsed([first.value.value] + more.value.value, more.value.rest))
  }

  function DecodePath(bytes: Bytes): Option<BlindedPath> {
    if |bytes| < 2 * KEY_BYTES then None
    else
      var n := ParseBigSize(bytes[2 * KEY_BYTES..]);
      if n.None? then None
      else
        var hops := ParseHops(n.value.value, n.value.rest);
        if hops.None? then None
        else Some(BlindedPath(Hex.Encode(bytes[..KEY_BYTES]), Some(Hex.Encode(bytes[KEY_BYTES..2 * KEY_BYTES])),
                              hops.value.value))
  }

  function PrependHops(hops: seq<BlindedHop>, more: Option<Parsed<seq<BlindedHop>>>): Option<seq<BlindedHop>> {
    if more.None? then None else Some(hops + more.value.value)
  }

  lemma ParseHopsStep(hops: seq<BlindedHop>, n: nat, bytes: Bytes)
    requires n > 0
    ensures ParseHop(bytes).None? ==> ParseHops(n, bytes).None?
    ensures ParseHop(bytes).Some? ==>
              var Parsed(hop, rest) := ParseHop(bytes).value;
              PrependHops(hops, ParseHops(n, bytes)) == PrependHops(hops + [hop], ParseHops(n - 1, rest))
  {
    hide ParseHop;
    if ParseHop(bytes).Some? && ParseHops(n - 1, ParseHop(bytes).value.rest).Some? {
      var Parsed(hop, rest) := ParseHop(bytes).value;
      var more := ParseHops(n - 1, rest).value.value;
      assert hops + ([hop] + more) == (hops + [hop]) + more;
    }
  }

  lemma PrependNoHops(more: Option<Parsed<seq<BlindedHop>>>)
    ensures PrependHops([], more) == if more.None? then None else Some(more.value.value)
  {
    if more.Some? {
      assert [] + more.value.value == more.value.value;
    }
  }

  lemma ParseNoHops(bytes: Bytes)
    ensures ParseHops(0, bytes) == Some(Parsed([], bytes))
  {
  }

  method ReadHop(cursor: Cursor) returns (hop: Option<BlindedHop>)
    requires cursor.Valid()
    modifies cursor
    ensures cursor.Valid()
    ensures var p := ParseHop(old(cursor.Rest()));
            if p.Some? then hop == Some(p.value.value) && cursor.Rest() == p.value.rest else hop == None
  {
    var node := cursor.ReadExact(KEY_BYTES);
    if node.None? {
      return None;
    }
    var len := cursor.ReadBigSize();
    if len.None? {
      return None;
    }
    var payload := cursor.ReadExact(len.value);
    if payload.None? {
      return None;
    }
    return Some(BlindedHop(Hex.Encode(node.value), Hex.Encode(payload.value)));
  }

  method ReadHops(cursor: Cursor, n: nat) returns (hops: Option<seq<BlindedHop>>)
    requires cursor.Valid()
    modifies cursor
    ensures var parsed := ParseHops(n, old(cursor.Rest()));
            hops == if parsed.None? then None else Some(parsed.value.value)
  {
    hide ParseHop, ParseHops;
    ghost var parsed := ParseHops(n, cursor.Rest());
    var read: seq<BlindedHop> := [];
    PrependNoHops(parsed);
    for i := 0 to n
      invariant cursor.Valid()
      invariant PrependHops([], parsed) == PrependHops(read, ParseHops(n - i, cursor.Rest()))
    {
      ParseHopsStep(read, n - i, cursor.Rest());
      var hop := ReadHop(cursor);
      if hop.None? {
        return None;
      }
      read := read + [hop.value];
    }
    ParseNoHops(cursor.Rest());
    assert read + [] == read;
    return Some(read);
  }

  method DecodeBytes(bytes: Bytes) returns (path: Option<BlindedPath>)
    ensures path == DecodePath(bytes)
  {
    hide ParseBigSize, ParseHops, Hex.Encode;
    var cursor := new Cursor(bytes);
    assert cursor.Rest() == bytes;
    var intro := cursor.ReadExact(KEY_BYTES);
    if intro.None? {
      return None;
    }
    var point := cursor.ReadExact(KEY_BYTES);
    if point.None? {
      return None;
    }
    assert bytes[KEY_BYTES..][..KEY_BYTES] == bytes[KEY_BYTES..2 * KEY_BYTES];
    assert bytes[KEY_BYTES..][KEY_BYTES..] == bytes[2 * KEY_BYTES..];
    var count := cursor.ReadBigSize();
    if count.None? {
      return None;
    }
    var hops := ReadHops(cursor, count.value);
    if hops.None? {
      return None;
    }
    return Some(BlindedPath(Hex.Encode(intro.value), Some(Hex.Encode(point.value)), hops.value));
  }

  predicate IsKeyHex(text: string) {
    Hex.IsLowerHex(text) && |text| == 2 * KEY_BYTES
  }

  ghost predicate WellFormedHop(hop: BlindedHop) {
    IsKeyHex(hop.blindedNodeId) && Hex.IsLowerHex(hop.encryptedPayload) && |hop.encryptedPayload| / 2 <= U64_MAX
  }

  ghost predicate WellFormedPath(path: BlindedPath) {
    && IsKeyHex(path.introductionNodeId)
    && (path.blindingPoint.Some? ==> IsKeyHex(path.blindingPoint.value))
    && |path.blindedHops| <= U64_MAX
    && forall hop | hop in path.blindedHops :: WellFormedHop(hop)
  }

  lemma ParseHopParts(node: Bytes, len: nat, payload: Bytes, rest: Bytes)
    requires |node| == KEY_BYTES && |payload| == len <= U64_MAX
    ensures ParseHop(node + EncodeBigSize(len) + payload + rest)
         == Some(Parsed(BlindedHop(Hex.Encode(node), Hex.Encode(payload)), rest))
  {
    hide ParseBigSize, EncodeBigSize, Hex.Encode;
    var bytes := node + EncodeBigSize(len) + payload + rest;
    assert bytes[..KEY_BYTES] == node && bytes[KEY_BYTES..] == EncodeBigSize(len) + (payload + rest);
    ParseEncodeBigSize(len, payload + rest);
    assert (payload + rest)[..len] == payload && (payload + rest)[len..] == rest;
  }

  lemma HopRoundTrip(hop: BlindedHop, rest: Bytes)
    requires WellFormedHop(hop)
    ensures EncodeHop(hop).Some? && ParseHop(EncodeHop(hop).value + rest) == Some(Parsed(hop, rest))
  {
    Hex.EncodeDecode(hop.blindedNodeId);
    Hex.EncodeDecode(hop.encryptedPayload);
    hide ParseHop, EncodeBigSize;
    var node, payload := Hex.Decode(hop.blindedNodeId).value, Hex.Decode(hop.encryptedPayload).value;
    ParseHopParts(node, |payload|, payload, rest);
  }

  lemma {:induction false} ParseHopsSnoc(n: nat, a: Bytes, hops: seq<BlindedHop>, b: Bytes, last: BlindedHop,
          rest: Bytes)
    requires ParseHops(n, a) == Some(Parsed(hops, b)) && ParseHop(b) == Some(Parsed(last, rest))
    ensures ParseHops(n + 1, a) == Some(Parsed(hops + [last], rest))
  {
    hide ParseHop;
    if n == 0 {
      assert ParseHops(0, rest) == Some(Parsed([], rest));
      assert [last] + [] == [] + [last];
    } else {
      var Parsed(hop, more) := ParseHop(a).value;
      assert hops[1..] == ParseHops(n - 1, more).value.value;
      ParseHopsSnoc(n - 1, more, hops[1..], b, last, rest);
      assert [hop] + (hops[1..] + [last]) == hops + [last];
    }
  }

  lemma {:induction false} HopsRoundTrip(hops: seq<BlindedHop>, rest: Bytes)
    requires forall hop | hop in hops :: WellFormedHop(hop)
    ensures EncodeHops(hops).Some?
    ensures ParseHops(|hops|, EncodeHops(hops).value + rest) == Some(Parsed(hops, rest))
  {
    hide EncodeHop, ParseHop, WellFormedHop;
    if hops == [] {
      assert [] + rest == rest;
    } else {
      var front, last := hops[..|hops| - 1], hops[|hops| - 1];
      HopRoundTrip(last, rest);
      var tail := EncodeHop(last).value + rest;
      HopsRoundTrip(front, tail);
      assert EncodeHops(hops).value + rest == EncodeHops(front).value + tail;
      ParseHopsSnoc(|front|, EncodeHops(front).value + tail, front, tail, last, rest);
      assert hops == front + [last];
    }
  }

  /** The path as it is written: a missing blinding point becomes 33 zero bytes. */
  function Filled(path: BlindedPath): BlindedPath {
    if path.blindingPoint.Some? then path else path.(blindingPoint := Some(Hex.Encode(Zeros(KEY_BYTES))))
  }

  lemma WellFormedParts(path: BlindedPath)
    requires WellFormedPath(path)
    ensures forall hop | hop in path.blindedHops :: WellFormedHop(hop)
    ensures |path.blindedHops| <= U64_MAX
    ensures Hex.Decode(path.introductionNodeId).Some? && |Hex.Decode(path.introductionNodeId).value| == KEY_BYTES
    ensures Hex.Encode(Hex.Decode(path.introductionNodeId).value) == path.introductionNodeId
    ensures path.blindingPoint.Some? ==>
              var point := Hex.Decode(path.blindingPoint.value);
              point.Some? && |point.value| == KEY_BYTES && Hex.Encode(point.value) == path.blindingPoint.value
    ensures |Zeros(KEY_BYTES)| == KEY_BYTES
  {
    Hex.EncodeDecode(path.introductionNodeId);
    if path.blindingPoint.Some? {
      Hex.EncodeDecode(path.blindingPoint.value);
    }
  }

  lemma EncodePathOf(path: BlindedPath)
    requires Hex.Decode(path.introductionNodeId).Some? && EncodeHops(path.blindedHops).Some?
    requires path.blindingPoint.Some? ==> Hex.Decode(path.blindingPoint.value).Some?
    ensures EncodePath(path)
         == Some(Hex.Decode(path.introductionNodeId).value
                 + (if path.blindingPoint.Some? then Hex.Decode(path.blindingPoint.value).value else Zeros(KEY_BYTES))
                 + EncodeBigSize(|path.blindedHops|) + EncodeHops(path.blindedHops).value)
  {
  }

  lemma PathOf(bytes: Bytes, n: nat, rest: Bytes)
    requires |bytes| >= 2 * KEY_BYTES && ParseBigSize(bytes[2 * KEY_BYTES..]) == Some(Parsed(n, rest))
             && ParseHops(n, rest).Some?
    ensures DecodePath(bytes)
              == Some(BlindedPath(Hex.Encode(bytes[..KEY_BYTES]), Some(Hex.Encode(bytes[KEY_BYTES..2 * KEY_BYTES])),
                                                  ParseHops(n, rest).value.value))
  {
    hide ParseBigSize, ParseHops;
  }

  lemma PathParts(intro: Bytes, point: Bytes, n: nat, body: Bytes)
    requires |intro| == |point| == KEY_BYTES && n <= U64_MAX && ParseHops(n, body).Some?
    ensures DecodePath(intro + point + EncodeBigSize(n) + body)
         == Some(BlindedPath(Hex.Encode(intro), Some(Hex.Encode(point)), ParseHops(n, body).value.value))
  {
    hide *;
    var bytes := intro + point + EncodeBigSize(n) + body;
    assert bytes[..KEY_BYTES] == intro && bytes[KEY_BYTES..2 * KEY_BYTES] == point;
    assert bytes[2 * KEY_BYTES..] == EncodeBigSize(n) + body;
    ParseEncodeBigSize(n, body);
    PathOf(bytes, n, body);
  }

  lemma FilledOf(path: BlindedPath)
    ensures var point := if path.blindingPoint.Some? then path.blindingPoint.value else Hex.Encode(Zeros(KEY_BYTES));
            Filled(path) == BlindedPath(path.introductionNodeId, Some(point), path.blindedHops)
  {
  }

  /** Decoding an encoded path, whatever bytes follow it, gives the path back. */
  lemma PathRoundTrip(path: BlindedPath, trailing: Bytes)
    requires WellFormedPath(path)
    ensures EncodePath(path).Some? && DecodePath(EncodePath(path).value + trailing) == Some(Filled(path))
  {
    hide *;
    WellFormedParts(path);
    HopsRoundTrip(path.blindedHops, trailing);
    var intro := Hex.Decode(path.introductionNodeId).value;
    var point := if path.blindingPoint.Some? then Hex.Decode(path.blindingPoint.value).value else Zeros(KEY_BYTES);
    var n, hops := |path.blindedHops|, EncodeHops(path.blindedHops).value;
    EncodePathOf(path);
    FilledOf(path);
    PathParts(intro, point, n, hops + trailing);
    assert intro + point + EncodeBigSize(n) + (hops + trailing) == (intro + point + EncodeBigSize(n) + hops) + trailing;
  }

  lemma EncodedKey(key: Bytes)
    requires |key| == KEY_BYTES
    ensures IsKeyHex(Hex.Encode(key)) && Hex.Decode(Hex.Encode(key)) == Some(key)
  {
    Hex.DecodeEncode(key);
  }

  /** The parts of a parsed hop. */
  lemma HopParts(bytes: Bytes) returns (node: Bytes, payload: Bytes)
    requires ParseHop(bytes).Some?
    ensures |node| == KEY_BYTES && bytes == node + bytes[KEY_BYTES..]
    ensures ParseBigSize(bytes[KEY_BYTES..]) == Some(Parsed(|payload|, payload + ParseHop(bytes).value.rest))
    ensures ParseHop(bytes).value.value == BlindedHop(Hex.Encode(node), Hex.Encode(payload))
  {
    hide ParseBigSize;
    node := bytes[..KEY_BYTES];
    var Parsed(len, after) := ParseBigSize(bytes[KEY_BYTES..]).value;
    payload := after[..len];
    assert after == payload + after[len..];
  }

  lemma HopOf(node: Bytes, payload: Bytes)
    requires |node| == KEY_BYTES && |payload| <= U64_MAX
    ensures WellFormedHop(BlindedHop(Hex.Encode(node), Hex.Encode(payload)))
    ensures EncodeHop(BlindedHop(Hex.Encode(node), Hex.Encode(payload)))
         == Some(node + EncodeBigSize(|payload|) + payload)
  {
    hide EncodeBigSize;
    EncodedKey(node);
    Hex.DecodeEncode(payload);
  }

  /** A parsed hop is well-formed and writes to the bytes it was read from exactly when the length
      of its payload was minimal. */
  lemma HopExact(bytes: Bytes)
    requires ParseHop(bytes).Some?
    ensures WellFormedHop(ParseHop(bytes).value.value)
    ensures var Parsed(hop, rest) := ParseHop(bytes).value;
            && EncodeHop(hop).Some?
            && (MinimalBigSize(bytes[KEY_BYTES..]) ==> EncodeHop(hop).value + rest == bytes)
            && (EncodeHop(hop).value <= bytes ==> MinimalBigSize(bytes[KEY_BYTES..]))
  {
    hide *;
    var node, payload := HopParts(bytes);
    var tail, rest := bytes[KEY_BYTES..], ParseHop(bytes).value.rest;
    var len := EncodeBigSize(|payload|);
    MinimalExact(tail);
    HopOf(node, payload);
    var encoded := node + len + payload;
    assert encoded + rest == node + (len + (payload + rest));
    if encoded <= bytes {
      var more := bytes[|encoded|..];
      assert bytes == node + (len + (payload + more));
      assert tail == len + (payload + more);
      EncodeBigSizeRead(tail, |payload|, payload + more);
    }
  }

  lemma {:induction false} EncodeHopsCons(hop: BlindedHop, more: seq<BlindedHop>)
    requires EncodeHop(hop).Some? && EncodeHops(more).Some?
    ensures EncodeHops([hop] + more) == Some(EncodeHop(hop).value + EncodeHops(more).value)
    decreases |more|
  {
    hide EncodeHop;
    var all := [hop] + more;
    if more == [] {
      assert all == [hop] && all[..0] == [];
      assert [] + EncodeHop(hop).value == EncodeHop(hop).value + [];
    } else {
      var front, last := more[..|more| - 1], more[|more| - 1];
      EncodeHopsCons(hop, front);
      assert all[..|all| - 1] == [hop] + front && all[|all| - 1] == last;
      var first, middle := EncodeHop(hop).value, EncodeHops(front).value;
      assert (first + middle) + EncodeHop(last).value == first + (middle + EncodeHop(last).value);
    }
  }

  /** The lengths of the first `n` hops are minimal. */
  predicate MinimalHops(n: nat, bytes: Bytes) {
    n == 0
    || (ParseHop(bytes).Some? && MinimalBigSize(bytes[KEY_BYTES..]) && MinimalHops(n - 1, ParseHop(bytes).value.rest))
  }

  lemma {:induction false} HopsExact(n: nat, bytes: Bytes)
    requires ParseHops(n, bytes).Some?
    ensures var hops := ParseHops(n, bytes).value.value;
            && |hops| == n && (forall hop | hop in hops :: WellFormedHop(hop))
            && EncodeHops(hops).Some? && (EncodeHops(hops).value <= bytes <==> MinimalHops(n, bytes))
  {
    hide ParseHop, EncodeHop, WellFormedHop, MinimalBigSize;
    if n > 0 {
      HopExact(bytes);
      var Parsed(hop, rest) := ParseHop(bytes).value;
      HopsExact(n - 1, rest);
      var more := ParseHops(n - 1, rest).value.value;
      EncodeHopsCons(hop, more);
      var first, others := EncodeHop(hop).value, EncodeHops(more).value;
      if first + others <= bytes {
        assert first == bytes[..|first|];
      }
      if first + rest == bytes {
        assert bytes[|first|..] == rest;
        PrefixAfter(first, others, rest);
      }
    }
  }

  lemma PrefixAfter(first: Bytes, others: Bytes, rest: Bytes)
    ensures first + others <= first + rest <==> others <= rest
  {
    if first + others <= first + rest {
      assert others == (first + rest)[|first|..][..|others|];
    }
  }

  /** The number of hops and the length of every payload are minimal. */
  predicate MinimalPath(bytes: Bytes) {
    && |bytes| >= 2 * KEY_BYTES && MinimalBigSize(bytes[2 * KEY_BYTES..])
    && var n := ParseBigSize(bytes[2 * KEY_BYTES..]).value;
    MinimalHops(n.value, n.rest)
  }

  /** The parts of a decoded path. */
  lemma DecodedParts(bytes: Bytes) returns (keys: Bytes, n: nat, body: Bytes, tail: Bytes)
    requires DecodePath(bytes).Some?
    ensures bytes == keys + tail && |keys| == 2 * KEY_BYTES && tail == bytes[2 * KEY_BYTES..]
    ensures ParseBigSize(tail) == Some(Parsed(n, body)) && ParseHops(n, body).Some?
    ensures DecodePath(bytes)
         == Some(BlindedPath(Hex.Encode(keys[..KEY_BYTES]), Some(Hex.Encode(keys[KEY_BYTES..])),
                             ParseHops(n, body).value.value))
  {
    hide ParseBigSize, ParseHops, Hex.Encode;
    keys, tail := bytes[..2 * KEY_BYTES], bytes[2 * KEY_BYTES..];
    n, body := ParseBigSize(tail).value.value, ParseBigSize(tail).value.rest;
    assert keys[..KEY_BYTES] == bytes[..KEY_BYTES] && keys[KEY_BYTES..] == bytes[KEY_BYTES..2 * KEY_BYTES];
  }

  lemma DecodedPath(keys: Bytes, hops: seq<BlindedHop>)
    requires |keys| == 2 * KEY_BYTES && |hops| <= U64_MAX && EncodeHops(hops).Some?
    requires forall hop | hop in hops :: WellFormedHop(hop)
    ensures var path := BlindedPath(Hex.Encode(keys[..KEY_BYTES]), Some(Hex.Encode(keys[KEY_BYTES..])), hops);
            && WellFormedPath(path)
            && EncodePath(path) == Some(keys + (EncodeBigSize(|hops|) + EncodeHops(hops).value))
  {
    hide EncodeBigSize, EncodeHops, WellFormedHop, IsKeyHex, Hex.Encode, Hex.Decode;
    EncodedKey(keys[..KEY_BYTES]);
    EncodedKey(keys[KEY_BYTES..]);
    var count, written := EncodeBigSize(|hops|), EncodeHops(hops).value;
    assert keys[..KEY_BYTES] + keys[KEY_BYTES..] + count + written == keys + (count + written);
  }

  /** A number at the front and what follows it are written as they were read exactly when the
      number is minimal and what follows is written as it was read. */
  lemma NumberThen(tail: Bytes, n: nat, body: Bytes, written: Bytes)
    requires ParseBigSize(tail) == Some(Parsed(n, body))
    ensures n <= U64_MAX
    ensures EncodeBigSize(n) + written <= tail <==> MinimalBigSize(tail) && written <= body
  {
    hide *;
    var count := EncodeBigSize(n);
    MinimalExact(tail);
    PrefixAfter(count, written, body);
    if count + written <= tail {
      var more := tail[|count + written|..];
      assert tail == count + (written + more);
      EncodeBigSizeRead(tail, n, written + more);
    }
  }

  lemma MinimalParts(bytes: Bytes, n: nat, body: Bytes)
    requires |bytes| >= 2 * KEY_BYTES && ParseBigSize(bytes[2 * KEY_BYTES..]) == Some(Parsed(n, body))
    ensures MinimalPath(bytes) <==> MinimalBigSize(bytes[2 * KEY_BYTES..]) && MinimalHops(n, body)
  {
    hide ParseBigSize, MinimalBigSize, MinimalHops;
  }

  /** Whatever is decoded is well-formed, and writing it again gives the bytes it was read from
      exactly when all their numbers are minimal. */
  lemma ReencodeExact(bytes: Bytes)
    requires DecodePath(bytes).Some?
    ensures WellFormedPath(DecodePath(bytes).value) && EncodePath(DecodePath(bytes).value).Some?
    ensures EncodePath(DecodePath(bytes).value).value <= bytes <==> MinimalPath(bytes)
  {
    hide *;
    var keys, n, body, tail := DecodedParts(bytes);
    var hops := ParseHops(n, body).value.value;
    HopsExact(n, body);
    NumberThen(tail, n, body, EncodeHops(hops).value);
    DecodedPath(keys, hops);
    PrefixAfter(keys, EncodeBigSize(n) + EncodeHops(hops).value, tail);
    MinimalParts(bytes, n, body);
  }

  lemma DecodedPoint(bytes: Bytes)
    requires DecodePath(bytes).Some?
    ensures DecodePath(bytes).value.blindingPoint.Some?
  {
    hide ParseBigSize, ParseHops;
  }

  /** An encoded path comes back exactly when its keys and payloads are lower-case hex text of the
      right lengths. */
  lemma PathExact(path: BlindedPath, trailing: Bytes)
    requires EncodePath(path).Some?
    ensures DecodePath(EncodePath(path).value + trailing) == Some(Filled(path)) <==> WellFormedPath(path)
    ensures DecodePath(EncodePath(path).value + trailing) == Some(path)
        <==> WellFormedPath(path) && path.blindingPoint.Some?
  {
    hide EncodePath, DecodePath;
    var bytes := EncodePath(path).value + trailing;
    if WellFormedPath(path) {
      PathRoundTrip(path, trailing);
    }
    if DecodePath(bytes).Some? {
      ReencodeExact(bytes);
      DecodedPoint(bytes);
    }
  }

  // ---------------------------------------------------------------------------------------
  // Invoice requests, at the level of their TLV bytes
  // ---------------------------------------------------------------------------------------

  datatype InvoiceRequest = InvoiceRequest(
    amountMsats: nat,
    payerNodeId: Option<string>,
    quantity: Option<nat>,
    payerNote: Option<Bytes>,
    signature: Option<string>)

  /** What the parser returns; `offerIdHex` is the identifier of the offer requested. */
  datatype ParsedRequest = ParsedRequest(offerIdHex: string, request: InvoiceRequest)

  const EMPTY_REQUEST := ParsedRequest("", InvoiceRequest(0, None, None, None, None))

  function HexRecord(tag: nat, text: Option<string>): seq<TlvRecord> {
    if text.Some? && Hex.Decode(text.value).Some? then [TlvRecord(tag, Hex.Decode(text.value).value)] else []
  }

  function RequestRecords(r: InvoiceRequest, offerId: Bytes): seq<TlvRecord> {
    [TlvRecord(TLV_INVREQ_METADATA, [1, 2, 3, 4]), TlvRecord(TLV_INVREQ_OFFER_ID, offerId),
     TlvRecord(TLV_INVREQ_AMOUNT, Tu64(r.amountMsats))]
    + (if r.quantity.Some? then [TlvRecord(TLV_INVREQ_QUANTITY, Tu64(r.quantity.value))] else [])
    + HexRecord(TLV_INVREQ_PAYER_ID, r.payerNodeId)
    + (if r.payerNote.Some? then [TlvRecord(TLV_INVREQ_PAYER_NOTE, r.payerNote.value)] else [])
    + HexRecord(TLV_SIGNATURE, r.signature)
  }

  method EncodeRequest(r: InvoiceRequest, offerId: Bytes) returns (raw: Bytes)
    ensures raw == EncodeStream(RequestRecords(r, offerId))
  {
    hide EncodeStream, Tu64, Hex.Decode;
    var amount := WriteTu64(r.amountMsats);
    var records := [TlvRecord(TLV_INVREQ_METADATA, [1, 2, 3, 4])];
    records := records + [TlvRecord(TLV_INVREQ_OFFER_ID, offerId)];
    records := records + [TlvRecord(TLV_INVREQ_AMOUNT, amount)];
    ghost var parts := [TlvRecord(TLV_INVREQ_METADATA, [1, 2, 3, 4]), TlvRecord(TLV_INVREQ_OFFER_ID, offerId),
                        TlvRecord(TLV_INVREQ_AMOUNT, Tu64(r.amountMsats))];
    assert records == parts;
    if r.quantity.Some? {
      var quantity := WriteTu64(r.quantity.value);
      records := records + [TlvRecord(TLV_INVREQ_QUANTITY, quantity)];
    }
    parts := parts + if r.quantity.Some? then [TlvRecord(TLV_INVREQ_QUANTITY, Tu64(r.quantity.value))] else [];
    assert records == parts;
    records := PushHex(records, TLV_INVREQ_PAYER_ID, r.payerNodeId);
    parts := parts + HexRecord(TLV_INVREQ_PAYER_ID, r.payerNodeId);
    if r.payerNote.Some? {
      records := records + [TlvRecord(TLV_INVREQ_PAYER_NOTE, r.payerNote.value)];
    }
    parts := parts + if r.payerNote.Some? then [TlvRecord(TLV_INVREQ_PAYER_NOTE, r.payerNote.value)] else [];
    assert records == parts;
    records := PushHex(records, TLV_SIGNATURE, r.signature);
    parts := parts + HexRecord(TLV_SIGNATURE, r.signature);
    assert parts == RequestRecords(r, offerId);
    raw := EncodeTlvStream(records);
  }

  /** Hex that does not decode leaves the record out. */
  method PushHex(records: seq<TlvRecord>, tag: nat, text: Option<string>) returns (r: seq<TlvRecord>)
    ensures r == records + HexRecord(tag, text)
  {
    r := records;
    if text.Some? {
      var bytes := Hex.Decode(text.value);
      if bytes.Some? {
        r := r + [TlvRecord(tag, bytes.value)];
      }
    }
  }

  /** One record's effect on the request read so far. */
  function ReadRecord(p: ParsedRequest, r: TlvRecord): ParsedRequest {
    if r.tag == TLV_INVREQ_OFFER_ID then p.(offerIdHex := Hex.Encode(r.value))
    else if r.tag == TLV_INVREQ_AMOUNT then
      if ReadTu64(r.value).Some? then p.(request := p.request.(amountMsats := ReadTu64(r.value).value)) else p
    else if r.tag == TLV_INVREQ_QUANTITY then
      if ReadTu64(r.value).Some? then p.(request := p.request.(quantity := ReadTu64(r.value))) else p
    else if r.tag == TLV_INVREQ_PAYER_ID then p.(request := p.request.(payerNodeId := Some(Hex.Encode(r.value))))
    else if r.tag == TLV_INVREQ_PAYER_NOTE then
      if Utf8.Valid(r.value) then p.(request := p.request.(payerNote := Some(r.value))) else p
    else if r.tag == TLV_SIGNATURE then p.(request := p.request.(signature := Some(Hex.Encode(r.value))))
    else p
  }

  function ReadRecords(p: ParsedRequest, rs: seq<TlvRecord>): ParsedRequest
    decreases |rs|
  {
    if rs == [] then p else ReadRecords(ReadRecord(p, rs[0]), rs[1..])
  }

  /** Bytes that are not a TLV stream read as the empty request. */
  function ParseRaw(raw: Bytes): ParsedRequest {
    if DecodeStream(raw).None? then EMPTY_REQUEST else ReadRecords(EMPTY_REQUEST, DecodeStream(raw).value)
  }

  method ParseRequest(raw: Bytes) returns (p: ParsedRequest)
    ensures p == ParseRaw(raw)
  {
    hide DecodeStream, ReadTu64, Utf8.Valid;
    var records := DecodeTlvStream(raw);
    if records.None? {
      return EMPTY_REQUEST;
    }
    var rs := records.value;
    var offerIdHex, amount := "", 0;
    var quantity: Option<nat> := None;
    var payerNodeId: Option<string> := None;
    var payerNote: Option<Bytes> := None;
    var signature: Option<string> := None;
    assert rs[0..] == rs;
    for i := 0 to |rs|
      invariant var request := InvoiceRequest(amount, payerNodeId, quantity, payerNote, signature);
                ReadRecords(ParsedRequest(offerIdHex, request), rs[i..]) == ReadRecords(EMPTY_REQUEST, rs)
    {
      var r := rs[i];
      assert rs[i..][1..] == rs[i + 1..];
      if r.tag == TLV_INVREQ_OFFER_ID {
        offerIdHex := Hex.Encode(r.value);
      } else if r.tag == TLV_INVREQ_AMOUNT {
        var n := ReadTu64(r.value);
        if n.Some? {
          amount := n.value;
        }
      } else if r.tag == TLV_INVREQ_QUANTITY {
        var n := ReadTu64(r.value);
        if n.Some? {
          quantity := n;
        }
      } else if r.tag == TLV_INVREQ_PAYER_ID {
        payerNodeId := Some(Hex.Encode(r.value));
      } else if r.tag == TLV_INVREQ_PAYER_NOTE {
        if Utf8.Valid(r.value) {
          payerNote := Some(r.value);
        }
      } else if r.tag == TLV_SIGNATURE {
        signature := Some(Hex.Encode(r.value));
      }
    }
    return ParsedRequest(offerIdHex, InvoiceRequest(amount, payerNodeId, quantity, payerNote, signature));
  }

  /** What becomes of a hex field: other spellings come back in lower case, and text that is not
      hex is lost. */
  function Reread(text: Option<string>): Option<string> {
    if text.Some? && Hex.Decode(text.value).Some? then Some(Hex.Encode(Hex.Decode(text.value).value)) else None
  }

  lemma RereadExact(text: Option<string>)
    ensures Reread(text) == text <==> text.None? || Hex.IsLowerHex(text.value)
  {
    if text.Some? && Hex.Decode(text.value).Some? {
      Hex.DecodeEncode(Hex.Decode(text.value).value);
    }
    if text.Some? && Hex.IsLowerHex(text.value) {
      Hex.EncodeDecode(text.value);
    }
  }

  function RereadRequest(r: InvoiceRequest): InvoiceRequest {
    r.(payerNodeId := Reread(r.payerNodeId), signature := Reread(r.signature))
  }

  /** Numbers of 64 bits, lengths that fit the format, and a note that is text. */
  ghost predicate WellFormedRequest(r: InvoiceRequest) {
    && r.amountMsats <= U64_MAX
    && (r.quantity.Some? ==> r.quantity.value <= U64_MAX)
    && (r.payerNodeId.Some? ==> |r.payerNodeId.value| / 2 <= U64_MAX)
    && (r.signature.Some? ==> |r.signature.value| / 2 <= U64_MAX)
    && (r.payerNote.Some? ==> Utf8.Valid(r.payerNote.value) && |r.payerNote.value| <= U64_MAX)
  }

  lemma ReadRecordsConcat(p: ParsedRequest, a: seq<TlvRecord>, b: seq<TlvRecord>)
    ensures ReadRecords(p, a + b) == ReadRecords(ReadRecords(p, a), b)
    decreases |a|
  {
    hide ReadRecord;
    if a == [] {
      assert a + b == b;
    } else {
      assert (a + b)[1..] == a[1..] + b;
      ReadRecordsConcat(ReadRecord(p, a[0]), a[1..], b);
    }
  }

  lemma ReadOne(p: ParsedRequest, r: TlvRecord)
    ensures ReadRecords(p, [r]) == ReadRecord(p, r) && ReadRecords(p, []) == p
  {
    assert [r][1..] == [];
  }

  lemma RequestOrdered(r: InvoiceRequest, offerId: Bytes)
    ensures NonDecreasing(RequestRecords(r, offerId))
  {
    hide Tu64;
  }

  lemma RequestEncodable(r: InvoiceRequest, offerId: Bytes)
    requires WellFormedRequest(r) && |offerId| == 32
    ensures Encodable(RequestRecords(r, offerId))
  {
    BigEndianBounds();
    hide Pow256;
    Tu64Fits(r.amountMsats, 8);
    if r.quantity.Some? {
      Tu64Fits(r.quantity.value, 8);
    }
    hide Tu64;
  }

  lemma ReadHex(p: ParsedRequest, tag: nat, text: Option<string>)
    requires tag == TLV_INVREQ_PAYER_ID || tag == TLV_SIGNATURE
    requires p.request.payerNodeId.None? || tag == TLV_SIGNATURE
    requires p.request.signature.None?
    ensures ReadRecords(p, HexRecord(tag, text))
         == if tag == TLV_SIGNATURE then p.(request := p.request.(signature := Reread(text)))
            else p.(request := p.request.(payerNodeId := Reread(text)))
  {
    hide Hex.Decode, Hex.Encode;
    if text.Some? && Hex.Decode(text.value).Some? {
      ReadOne(p, TlvRecord(tag, Hex.Decode(text.value).value));
    }
  }

  lemma ReadWritten(r: InvoiceRequest, offerId: Bytes)
    requires WellFormedRequest(r) && |offerId| == 32
    ensures ReadRecords(EMPTY_REQUEST, RequestRecords(r, offerId))
              == ParsedRequest(Hex.Encode(offerId), RereadRequest(r))
  {
    Tu64RoundTrip(r.amountMsats);
    hide Tu64, ReadTu64, Utf8.Valid, Reread;
    var head := [TlvRecord(TLV_INVREQ_METADATA, [1, 2, 3, 4]), TlvRecord(TLV_INVREQ_OFFER_ID, offerId),
                 TlvRecord(TLV_INVREQ_AMOUNT, Tu64(r.amountMsats))];
    var quantity := if r.quantity.Some? then [TlvRecord(TLV_INVREQ_QUANTITY, Tu64(r.quantity.value))] else [];
    var payer := HexRecord(TLV_INVREQ_PAYER_ID, r.payerNodeId);
    var note := if r.payerNote.Some? then [TlvRecord(TLV_INVREQ_PAYER_NOTE, r.payerNote.value)] else [];
    var signature := HexRecord(TLV_SIGNATURE, r.signature);
    assert RequestRecords(r, offerId) == head + quantity + payer + note + signature;

    var p0 := ParsedRequest(Hex.Encode(offerId), InvoiceRequest(r.amountMsats, None, None, None, None));
    assert ReadRecords(EMPTY_REQUEST, head) == p0 by {
      ReadHead(offerId, Tu64(r.amountMsats), r.amountMsats);
    }
    ReadRecordsConcat(EMPTY_REQUEST, head, quantity);
    var p1 := p0.(request := p0.request.(quantity := r.quantity));
    assert ReadRecords(p0, quantity) == p1 by {
      if r.quantity.Some? {
        Tu64RoundTrip(r.quantity.value);
      }
      ReadOne(p0, TlvRecord(TLV_INVREQ_QUANTITY, if r.quantity.Some? then Tu64(r.quantity.value) else []));
    }
    ReadRecordsConcat(EMPTY_REQUEST, head + quantity, payer);
    ReadHex(p1, TLV_INVREQ_PAYER_ID, r.payerNodeId);
    var p2 := p1.(request := p1.request.(payerNodeId := Reread(r.payerNodeId)));
    ReadRecordsConcat(EMPTY_REQUEST, head + quantity + payer, note);
    var p3 := p2.(request := p2.request.(payerNote := r.payerNote));
    assert ReadRecords(p2, note) == p3 by {
      ReadOne(p2, TlvRecord(TLV_INVREQ_PAYER_NOTE, if r.payerNote.Some? then r.payerNote.value else []));
    }
    ReadRecordsConcat(EMPTY_REQUEST, head + quantity + payer + note, signature);
    ReadHex(p3, TLV_SIGNATURE, r.signature);
  }

  lemma ReadHead(offerId: Bytes, amountBytes: Bytes, amount: nat)
    requires ReadTu64(amountBytes) == Some(amount)
    ensures ReadRecords(EMPTY_REQUEST,
                        [TlvRecord(TLV_INVREQ_METADATA, [1, 2, 3, 4]), TlvRecord(TLV_INVREQ_OFFER_ID, offerId),
                                        TlvRecord(TLV_INVREQ_AMOUNT, amountBytes)])
         == ParsedRequest(Hex.Encode(offerId), InvoiceRequest(amount, None, None, None, None))
  {
    hide ReadTu64;
    var a, b, c := TlvRecord(TLV_INVREQ_METADATA, [1, 2, 3, 4]), TlvRecord(TLV_INVREQ_OFFER_ID, offerId),
                   TlvRecord(TLV_INVREQ_AMOUNT, amountBytes);
    assert [a, b, c][1..] == [b, c] && [b, c][1..] == [c] && [c][1..] == [];
    assert ReadRecord(EMPTY_REQUEST, a) == EMPTY_REQUEST;
    assert ReadRecords(EMPTY_REQUEST, [a, b, c]) == ReadRecords(EMPTY_REQUEST, [b, c]);
    ReadOne(ReadRecord(EMPTY_REQUEST, b), c);
  }

  /** Parsing an encoded request recovers amount, quantity and note, whatever their values, the
      identifier of the offer it was made for, and payer and signature up to their spelling. */
  lemma RequestRoundTrip(r: InvoiceRequest, offerId: Bytes)
    requires WellFormedRequest(r) && |offerId| == 32
    ensures ParseRaw(EncodeStream(RequestRecords(r, offerId))) == ParsedRequest(Hex.Encode(offerId), RereadRequest(r))
  {
    hide *;
    RequestEncodable(r, offerId);
    DecodeEncode(RequestRecords(r, offerId));
    RequestOrdered(r, offerId);
    SortFixed(RequestRecords(r, offerId));
    ReadWritten(r, offerId);
    ParseOf(EncodeStream(RequestRecords(r, offerId)));
  }

  /** Records that the parser can use: numbers of at most eight bytes, notes that are text. */
  predicate Usable(r: TlvRecord) {
    (r.tag in {4, 8} ==> |r.value| <= 8) && (r.tag == 12 ==> Utf8.Valid(r.value))
  }

  /** The field of this type shows this value. */
  predicate ShowsValue(p: ParsedRequest, tag: nat, value: Bytes) {
    && (tag == 2 ==> p.offerIdHex == Hex.Encode(value))
    && (tag == 4 ==> ReadTu64(value) == Some(p.request.amountMsats))
    && (tag == 8 ==> p.request.quantity.Some? && ReadTu64(value) == p.request.quantity)
    && (tag == 10 ==> p.request.payerNodeId == Some(Hex.Encode(value)))
    && (tag == 12 ==> p.request.payerNote == Some(value))
    && (tag == 240 ==> p.request.signature == Some(Hex.Encode(value)))
  }

  predicate ShowsNothing(p: ParsedRequest, tag: nat) {
    && (tag == 2 ==> p.offerIdHex == "")
    && (tag == 4 ==> p.request.amountMsats == 0)
    && (tag == 8 ==> p.request.quantity.None?)
    && (tag == 10 ==> p.request.payerNodeId.None?)
    && (tag == 12 ==> p.request.payerNote.None?)
    && (tag == 240 ==> p.request.signature.None?)
  }

  lemma FieldStep(p: ParsedRequest, r: TlvRecord, tag: nat, value: Bytes)
    ensures r.tag == tag && Usable(r) ==> ShowsValue(ReadRecord(p, r), tag, r.value)
    ensures r.tag != tag || !Usable(r) ==>
              && (ShowsValue(ReadRecord(p, r), tag, value) <==> ShowsValue(p, tag, value))
              && (ShowsNothing(ReadRecord(p, r), tag) <==> ShowsNothing(p, tag))
  {
    hide Utf8.Valid, Hex.Encode, FromBigEndian, Zeros;
  }

  lemma NothingRead(tag: nat)
    ensures ReadRecords(EMPTY_REQUEST, []) == EMPTY_REQUEST && ShowsNothing(EMPTY_REQUEST, tag)
  {
  }

  lemma LastRead(rs: seq<TlvRecord>)
    requires rs != []
    ensures var front, last := rs[..|rs| - 1], rs[|rs| - 1];
            ReadRecords(EMPTY_REQUEST, rs) == ReadRecord(ReadRecords(EMPTY_REQUEST, front), last)
  {
    hide ReadRecord;
    var front, last := rs[..|rs| - 1], rs[|rs| - 1];
    ReadRecordsConcat(EMPTY_REQUEST, front, [last]);
    assert rs == front + [last] && [last][1..] == [];
  }

  /** Whatever the records, every field shows its last usable record, and nothing without one. */
  lemma {:induction false} FieldsExact(rs: seq<TlvRecord>, tag: nat)
    ensures forall i | 0 <= i < |rs| && rs[i].tag == tag && Usable(rs[i])
                       && forall j | i < j < |rs| :: rs[j].tag != tag || !Usable(rs[j]) ::
              ShowsValue(ReadRecords(EMPTY_REQUEST, rs), tag, rs[i].value)
    ensures (forall i | 0 <= i < |rs| :: rs[i].tag != tag || !Usable(rs[i])) ==>
              ShowsNothing(ReadRecords(EMPTY_REQUEST, rs), tag)
    decreases |rs|
  {
    hide ReadRecord, ReadRecords, Usable, ShowsValue, ShowsNothing;
    if rs == [] {
      NothingRead(tag);
    } else {
      var front, last := rs[..|rs| - 1], rs[|rs| - 1];
      FieldsExact(front, tag);
      LastRead(rs);
      FieldStep(ReadRecords(EMPTY_REQUEST, front), last, tag, last.value);
      forall i | 0 <= i < |front| && rs[i].tag == tag && Usable(rs[i])
                 && forall j | i < j < |rs| :: rs[j].tag != tag || !Usable(rs[j])
        ensures ShowsValue(ReadRecords(EMPTY_REQUEST, rs), tag, rs[i].value)
      {
        assert front[i] == rs[i] && forall j | i < j < |front| :: front[j] == rs[j];
        assert last == rs[|rs| - 1];
        FieldStep(ReadRecords(EMPTY_REQUEST, front), last, tag, rs[i].value);
      }
    }
  }

  /** The records that a request is written as: metadata under 0, the offer under 2, the amount under
      4, and quantity, payer, note and signature under 8, 10, 12 and 240 where they are present and
      readable. */
  lemma RequestOnWire(r: InvoiceRequest, offerId: Bytes, x: TlvRecord)
    ensures x in RequestRecords(r, offerId) <==>
            || x == TlvRecord(0, [1, 2, 3, 4]) || x == TlvRecord(2, offerId) || x == TlvRecord(4, Tu64(r.amountMsats))
            || (r.quantity.Some? && x == TlvRecord(8, Tu64(r.quantity.value)))
            || (r.payerNodeId.Some? && x.tag == 10 && Some(x.value) == Hex.Decode(r.payerNodeId.value))
            || (r.payerNote.Some? && x == TlvRecord(12, r.payerNote.value))
            || (r.signature.Some? && x.tag == 240 && Some(x.value) == Hex.Decode(r.signature.value))
    ensures NonDecreasing(RequestRecords(r, offerId))
  {
    hide Tu64, Hex.Decode, HexRecord;
    HexRecordExact(10, r.payerNodeId, x);
    HexRecordExact(240, r.signature, x);
    RequestOrdered(r, offerId);
  }

  lemma HexRecordExact(tag: nat, text: Option<string>, x: TlvRecord)
    ensures x in HexRecord(tag, text) <==> text.Some? && x.tag == tag && Some(x.value) == Hex.Decode(text.value)
  {
    hide Hex.Decode;
  }

  /** The whole request comes back exactly when payer and signature are absent or lower-case hex. */
  lemma RequestExact(r: InvoiceRequest, offerId: Bytes)
    requires WellFormedRequest(r) && |offerId| == 32
    ensures ParseRaw(EncodeStream(RequestRecords(r, offerId))).request == r <==>
            && (r.payerNodeId.None? || Hex.IsLowerHex(r.payerNodeId.value))
            && (r.signature.None? || Hex.IsLowerHex(r.signature.value))
  {
    hide ParseRaw, EncodeStream, RequestRecords, Reread, Hex.IsLowerHex;
    RequestRoundTrip(r, offerId);
    RereadExact(r.payerNodeId);
    RereadExact(r.signature);
  }

  lemma ParseOf(raw: Bytes)
    requires DecodeStream(raw).Some?
    ensures ParseRaw(raw) == ReadRecords(EMPTY_REQUEST, DecodeStream(raw).value)
  {
  }
}
