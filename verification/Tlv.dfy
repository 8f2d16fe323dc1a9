/** TLV streams as BOLT #1 lays them out: BigSize numbers, type-length-value records, and the
    stream encoder and decoder.
  */
module Tlv {
  import opened Prelude

  // ---------------------------------------------------------------------------------------
  // Big-endian numbers
  // ---------------------------------------------------------------------------------------

  function Pow256(len: nat): (p: nat)
    ensures p > 0
  {
    if len == 0 then 1 else 256 * Pow256(len - 1)
  }

  function ToBigEndian(n: nat, len: nat): (bytes: Bytes)
    ensures |bytes| == len
  {
    if len == 0 then [] else ToBigEndian(n / 256, len - 1) + [n % 256]
  }

  function FromBigEndian(bytes: Bytes): nat {
    if bytes == [] then 0 else 256 * FromBigEndian(bytes[..|bytes| - 1]) + bytes[|bytes| - 1]
  }

  lemma {:induction false} FromToBigEndian(n: nat, len: nat)
    requires n < Pow256(len)
    ensures FromBigEndian(ToBigEndian(n, len)) == n
  {
    if len > 0 {
      FromToBigEndian(n / 256, len - 1);
      var bytes := ToBigEndian(n, len);
      assert bytes[..len - 1] == ToBigEndian(n / 256, len - 1);
    }
  }

  lemma {:induction false} ToFromBigEndian(bytes: Bytes)
    ensures FromBigEndian(bytes) < Pow256(|bytes|)
    ensures ToBigEndian(FromBigEndian(bytes), |bytes|) == bytes
  {
    if bytes != [] {
      ToFromBigEndian(bytes[..|bytes| - 1]);
      assert bytes == bytes[..|bytes| - 1] + [bytes[|bytes| - 1]];
    }
  }

  // ---------------------------------------------------------------------------------------
  // BigSize
  // ---------------------------------------------------------------------------------------

  datatype Parsed<+T> = Parsed(value: T, rest: Bytes)

  function EncodeBigSize(val: nat): (bytes: Bytes)
    ensures bytes != []
  {
    if val <= 0xfc then [val]
    else if val <= 0xffff then [0xfd] + ToBigEndian(val, 2)
    else if val <= 0xffff_ffff then [0xfe] + ToBigEndian(val, 4)
    else [0xff] + ToBigEndian(val, 8)
  }

  /** How many bytes follow a first byte. */
  function WidthAfter(first: Byte): nat {
    if first <= 0xfc then 0 else if first == 0xfd then 2 else if first == 0xfe then 4 else 8
  }

  function ParseBigSize(bytes: Bytes): (p: Option<Parsed<nat>>)
    ensures p.Some? ==> |p.value.rest| < |bytes|
  {
    if bytes == [] then None
    else if bytes[0] <= 0xfc then Some(Parsed(bytes[0], bytes[1..]))
    else
      var w := WidthAfter(bytes[0]);
      if |bytes| < 1 + w then None
      else Some(Parsed(FromBigEndian(bytes[1..1 + w]), bytes[1 + w..]))
  }

  lemma BigEndianBounds()
    ensures Pow256(2) == 0x1_0000 && Pow256(4) == 0x1_0000_0000 && Pow256(8) == U64_MAX + 1
  {
    assert Pow256(1) == 256;
    assert Pow256(3) == 256 * Pow256(2);
    assert Pow256(5) == 256 * Pow256(4);
    assert Pow256(6) == 256 * Pow256(5);
    assert Pow256(7) == 256 * Pow256(6);
  }

  /** Every u64 reads back from its encoding, whatever follows. */
  lemma ParseEncodeBigSize(val: nat, rest: Bytes)
    requires val <= U64_MAX
    ensures ParseBigSize(EncodeBigSize(val) + rest) == Some(Parsed(val, rest))
  {
    BigEndianBounds();
    hide Pow256;
    var w := if val <= 0xfc then 0 else if val <= 0xffff then 2 else if val <= 0xffff_ffff then 4 else 8;
    var bytes := EncodeBigSize(val) + rest;
    assert bytes[1 + w..] == rest;
    if w > 0 {
      FromToBigEndian(val, w);
      assert bytes[1..1 + w] == ToBigEndian(val, w);
    }
  }

  /** The number at the front is written in its shortest form. */
  predicate MinimalBigSize(bytes: Bytes) {
    var p := ParseBigSize(bytes);
    p.Some? && match bytes[0]
               case 0xfd => p.value.value > 0xfc
               case 0xfe => p.value.value > 0xffff
               case 0xff => p.value.value > 0xffff_ffff
               case _ => true
  }

  /** Writing a number back gives the bytes it was read from exactly when they were minimal. */
  lemma MinimalExact(bytes: Bytes)
    requires ParseBigSize(bytes).Some?
    ensures ParseBigSize(bytes).value.value <= U64_MAX
    ensures MinimalBigSize(bytes)
            <==> EncodeBigSize(ParseBigSize(bytes).value.value) + ParseBigSize(bytes).value.rest == bytes
  {
    BigEndianBounds();
    hide Pow256, ToBigEndian, FromBigEndian;
    var w := WidthAfter(bytes[0]);
    var Parsed(val, rest) := ParseBigSize(bytes).value;
    assert bytes == [bytes[0]] + bytes[1..1 + w] + rest;
    ToFromBigEndian(bytes[1..1 + w]);
    if MinimalBigSize(bytes) {
      assert EncodeBigSize(val) == [bytes[0]] + bytes[1..1 + w];
    } else {
      assert |EncodeBigSize(val)| < 1 + w;
    }
  }

  // ---------------------------------------------------------------------------------------
  // Cursors and buffers
  // ---------------------------------------------------------------------------------------

  class Cursor {
    const data: Bytes
    var pos: nat

    constructor (data: Bytes)
      ensures this.data == data && pos == 0
    {
      this.data, pos := data, 0;
    }

    ghost predicate Valid()
      reads this
    {
      pos <= |data|
    }

    function Rest(): Bytes
      requires Valid()
      reads this
    {
      data[pos..]
    }

    /** `None` when fewer than `n` bytes are left; the parse that asked for them then ends. */
    method ReadExact(n: nat) returns (bytes: Option<Bytes>)
      requires Valid()
      modifies this
      ensures Valid()
      ensures if n <= |old(Rest())| then bytes == Some(old(Rest())[..n]) && Rest() == old(Rest())[n..]
              else bytes == None && Rest() == old(Rest())
    {
      if |data| - pos < n {
        return None;
      }
      bytes := Some(data[pos..pos + n]);
      assert data[pos..pos + n] == Rest()[..n] && data[pos + n..] == Rest()[n..];
      pos := pos + n;
    }

    method ReadBigSize() returns (val: Option<nat>)
      requires Valid()
      modifies this
      ensures Valid()
      ensures var p := ParseBigSize(old(Rest()));
              if p.Some? then val == Some(p.value.value) && Rest() == p.value.rest else val == None
    {
      ghost var before := Rest();
      var first := ReadExact(1);
      if first.None? {
        return None;
      }
      if first.value[0] <= 0xfc {
        return Some(first.value[0]);
      }
      var width := WidthAfter(first.value[0]);
      var tail := ReadExact(width);
      if tail.None? {
        return None;
      }
      assert before[1..][..width] == before[1..1 + width] && before[1..][width..] == before[1 + width..];
      return Some(FromBigEndian(tail.value));
    }
  }

  class ByteBuffer {
    var bytes: Bytes

    constructor ()
      ensures bytes == []
    {
      bytes := [];
    }

    method Extend(more: Bytes)
      modifies this
      ensures bytes == old(bytes) + more
    {
      bytes := bytes + more;
    }

    method WriteBigSize(val: nat)
      modifies this
      ensures bytes == old(bytes) + EncodeBigSize(val)
    {
      hide ToBigEndian;
      if val <= 0xfc {
        Extend([val]);
      } else if val <= 0xffff {
        Extend([0xfd]);
        Extend(ToBigEndian(val, 2));
      } else if val <= 0xffff_ffff {
        Extend([0xfe]);
        Extend(ToBigEndian(val, 4));
      } else {
        Extend([0xff]);
        Extend(ToBigEndian(val, 8));
      }
    }
  }

  // ---------------------------------------------------------------------------------------
  // Records and their order
  // ---------------------------------------------------------------------------------------

  datatype TlvRecord = TlvRecord(tag: nat, value: Bytes)

  /** Tags and lengths that fit the format. */
  predicate Encodable(rs: seq<TlvRecord>) {
    forall r | r in rs :: r.tag <= U64_MAX && |r.value| <= U64_MAX
  }

  function InsertByTag(r: TlvRecord, rs: seq<TlvRecord>): seq<TlvRecord> {
    if rs == [] || r.tag <= rs[0].tag then [r] + rs else [rs[0]] + InsertByTag(r, rs[1..])
  }

  /** The stable sort by tag that the library performs. */
  function StableSort(rs: seq<TlvRecord>): seq<TlvRecord> {
    if rs == [] then [] else InsertByTag(rs[0], StableSort(rs[1..]))
  }

  predicate NonDecreasing(rs: seq<TlvRecord>) {
    forall i, j | 0 <= i < j < |rs| :: rs[i].tag <= rs[j].tag
  }

  function WithTag(rs: seq<TlvRecord>, tag: nat): seq<TlvRecord> {
    if rs == [] then []
    else if rs[0].tag == tag then [rs[0]] + WithTag(rs[1..], tag)
    else WithTag(rs[1..], tag)
  }

  lemma {:induction false} InsertKeepsOrder(r: TlvRecord, rs: seq<TlvRecord>)
    requires NonDecreasing(rs)
    ensures NonDecreasing(InsertByTag(r, rs))
    ensures forall x | x in InsertByTag(r, rs) :: x == r || x in rs
  {
    if rs != [] && r.tag > rs[0].tag {
      InsertKeepsOrder(r, rs[1..]);
      var tail := InsertByTag(r, rs[1..]);
      forall j | 0 <= j < |tail| ensures rs[0].tag <= tail[j].tag {
        assert tail[j] in tail;
      }
    }
  }

  lemma {:induction false} SortOrders(rs: seq<TlvRecord>)
    ensures NonDecreasing(StableSort(rs))
    ensures forall x | x in StableSort(rs) :: x in rs
  {
    if rs != [] {
      SortOrders(rs[1..]);
      InsertKeepsOrder(rs[0], StableSort(rs[1..]));
    }
  }

  lemma {:induction false} InsertWithTag(r: TlvRecord, rs: seq<TlvRecord>, tag: nat)
    ensures WithTag(InsertByTag(r, rs), tag) == WithTag([r] + rs, tag)
  {
    assert ([r] + rs)[1..] == rs;
    if rs != [] && r.tag > rs[0].tag {
      InsertWithTag(r, rs[1..], tag);
      assert ([rs[0]] + InsertByTag(r, rs[1..]))[1..] == InsertByTag(r, rs[1..]);
      assert ([r] + rs[1..])[1..] == rs[1..];
    }
  }

  /** Sorting keeps the records of every tag in their given order. */
  lemma {:induction false} SortIsStable(rs: seq<TlvRecord>, tag: nat)
    ensures WithTag(StableSort(rs), tag) == WithTag(rs, tag)
  {
    if rs != [] {
      SortIsStable(rs[1..], tag);
      InsertWithTag(rs[0], StableSort(rs[1..]), tag);
      assert ([rs[0]] + StableSort(rs[1..]))[1..] == StableSort(rs[1..]);
    }
  }

  lemma {:induction false} WithTagAbsent(rs: seq<TlvRecord>, tag: nat)
    ensures WithTag(rs, tag) == [] <==> forall i | 0 <= i < |rs| :: rs[i].tag != tag
  {
    if rs != [] {
      WithTagAbsent(rs[1..], tag);
      if rs[0].tag != tag {
        forall i | 0 < i < |rs| ensures rs[i] == rs[1..][i - 1] {}
      }
    }
  }

  /** An ordered stream is determined by its records tag by tag. */
  lemma {:induction false} OrderedByTags(a: seq<TlvRecord>, b: seq<TlvRecord>)
    requires NonDecreasing(a) && NonDecreasing(b)
    requires forall tag: nat :: WithTag(a, tag) == WithTag(b, tag)
    ensures a == b
  {
    if a == [] {
      if b != [] {
        assert WithTag(a, b[0].tag) == [];
        WithTagAbsent(b, b[0].tag);
      }
    } else {
      SameFirst(a, b);
      forall tag: nat ensures WithTag(a[1..], tag) == WithTag(b[1..], tag) {
        assert WithTag(a, tag) == WithTag(b, tag);
        if tag == a[0].tag {
          assert WithTag(a, tag)[1..] == WithTag(a[1..], tag) && WithTag(b, tag)[1..] == WithTag(b[1..], tag);
        }
      }
      OrderedByTags(a[1..], b[1..]);
      assert a == [a[0]] + a[1..] && b == [b[0]] + b[1..];
    }
  }

  lemma FirstWithTag(rs: seq<TlvRecord>)
    requires rs != []
    ensures WithTag(rs, rs[0].tag) != [] && WithTag(rs, rs[0].tag)[0] == rs[0]
  {
  }

  /** Of two ordered streams with the same records tag by tag, the second begins with a tag no
      larger than that of the first. */
  lemma FirstTagBound(a: seq<TlvRecord>, b: seq<TlvRecord>)
    requires NonDecreasing(b) && a != [] && WithTag(a, a[0].tag) == WithTag(b, a[0].tag)
    ensures b != [] && b[0].tag <= a[0].tag
  {
    hide WithTag;
    FirstWithTag(a);
    WithTagAbsent(b, a[0].tag);
  }

  lemma SameFirst(a: seq<TlvRecord>, b: seq<TlvRecord>)
    requires NonDecreasing(a) && NonDecreasing(b) && a != []
    requires forall tag: nat :: WithTag(a, tag) == WithTag(b, tag)
    ensures b != [] && a[0] == b[0]
  {
    hide WithTag, NonDecreasing;
    assert WithTag(a, a[0].tag) == WithTag(b, a[0].tag);
    FirstTagBound(a, b);
    assert WithTag(a, b[0].tag) == WithTag(b, b[0].tag);
    FirstTagBound(b, a);
    FirstWithTag(a);
    FirstWithTag(b);
  }

  lemma SortFixed(rs: seq<TlvRecord>)
    ensures StableSort(rs) == rs <==> NonDecreasing(rs)
  {
    SortOrders(rs);
    if NonDecreasing(rs) {
      forall tag: nat ensures WithTag(StableSort(rs), tag) == WithTag(rs, tag) {
        SortIsStable(rs, tag);
      }
      OrderedByTags(StableSort(rs), rs);
    }
  }

  // ---------------------------------------------------------------------------------------
  // Streams
  // ---------------------------------------------------------------------------------------

  function EncodeRecord(r: TlvRecord): Bytes {
    EncodeBigSize(r.tag) + EncodeBigSize(|r.value|) + r.value
  }

  function EncodeInOrder(rs: seq<TlvRecord>): Bytes {
    if rs == [] then [] else EncodeRecord(rs[0]) + EncodeInOrder(rs[1..])
  }

  function EncodeStream(rs: seq<TlvRecord>): Bytes {
    EncodeInOrder(StableSort(rs))
  }

  function ParseRecord(bytes: Bytes): (p: Option<Parsed<TlvRecord>>)
    ensures p.Some? ==> |p.value.rest| < |bytes|
  {
    var tag := ParseBigSize(bytes);
    if tag.None? then None
    else
      var len := ParseBigSize(tag.value.rest);
      if len.None? || |len.value.rest| < len.value.value then None
      else Some(Parsed(TlvRecord(tag.value.value, len.value.rest[..len.value.value]),
                       len.value.rest[len.value.value..]))
  }

  function DecodeStream(bytes: Bytes): Option<seq<TlvRecord>>
    decreases |bytes|
  {
    if bytes == [] then Some([])
    else
      var p := ParseRecord(bytes);
      if p.None? then None
      else
        var rest := DecodeStream(p.value.rest);
        if rest.None? then None else Some([p.value.value] + rest.value)
  }

  function Prepend(rs: seq<TlvRecord>, more: Option<seq<TlvRecord>>): Option<seq<TlvRecord>> {
    if more.None? then None else Some(rs + more.value)
  }

  lemma PrependNone(more: Option<seq<TlvRecord>>)
    ensures Prepend([], more) == more
  {
    if more.Some? {
      assert [] + more.value == more.value;
    }
  }

  lemma DecodeStep(before: Bytes, rs: seq<TlvRecord>)
    requires before != []
    ensures ParseRecord(before).None? ==> DecodeStream(before).None?
    ensures ParseRecord(before).Some? ==>
              var Parsed(r, rest) := ParseRecord(before).value;
              Prepend(rs, DecodeStream(before)) == Prepend(rs + [r], DecodeStream(rest))
  {
    hide ParseRecord;
    if ParseRecord(before).Some? && DecodeStream(ParseRecord(before).value.rest).Some? {
      var r, more := ParseRecord(before).value.value, DecodeStream(ParseRecord(before).value.rest).value;
      assert rs + ([r] + more) == (rs + [r]) + more;
    }
  }

  method DecodeTlvStream(bytes: Bytes) returns (r: Option<seq<TlvRecord>>)
    ensures r == DecodeStream(bytes)
  {
    hide DecodeStream, ParseBigSize;
    var cursor := new Cursor(bytes);
    var records: seq<TlvRecord> := [];
    PrependNone(DecodeStream(bytes));
    assert cursor.Rest() == bytes;
    while cursor.pos < |bytes|
      invariant fresh(cursor) && cursor.data == bytes && cursor.Valid()
      invariant DecodeStream(bytes) == Prepend(records, DecodeStream(cursor.Rest()))
      decreases |cursor.Rest()|
    {
      ghost var before := cursor.Rest();
      DecodeStep(before, records);
      var tag := cursor.ReadBigSize();
      if tag.None? {
        return None;
      }
      var len := cursor.ReadBigSize();
      if len.None? {
        return None;
      }
      var val := cursor.ReadExact(len.value);
      if val.None? {
        return None;
      }
      records := records + [TlvRecord(tag.value, val.value)];
    }
    DecodeNothing();
    assert records + [] == records;
    return Some(records);
  }

  lemma DecodeNothing()
    ensures DecodeStream([]) == Some([])
  {
  }

  lemma EncodeStep(rs: seq<TlvRecord>, i: nat)
    requires i < |rs|
    ensures EncodeInOrder(rs[i..]) == EncodeRecord(rs[i]) + EncodeInOrder(rs[i + 1..])
  {
    assert rs[i..][1..] == rs[i + 1..];
    hide EncodeRecord;
  }

  method EncodeTlvStream(records: seq<TlvRecord>) returns (bytes: Bytes)
    ensures bytes == EncodeStream(records)
  {
    hide EncodeInOrder, EncodeBigSize;
    var out := new ByteBuffer();
    var sorted := StableSort(records);
    assert sorted[0..] == sorted;
    for i := 0 to |sorted|
      invariant fresh(out)
      invariant out.bytes + EncodeInOrder(sorted[i..]) == EncodeInOrder(sorted)
    {
      EncodeStep(sorted, i);
      ghost var before := out.bytes;
      out.WriteBigSize(sorted[i].tag);
      out.WriteBigSize(|sorted[i].value|);
      out.Extend(sorted[i].value);
      assert out.bytes == before + EncodeRecord(sorted[i]);
    }
    EncodeNothing();
    assert sorted[|sorted|..] == [] && out.bytes + [] == out.bytes;
    return out.bytes;
  }

  lemma EncodeNothing()
    ensures EncodeInOrder([]) == []
  {
  }

  lemma RecordOf(bytes: Bytes, tag: nat, afterTag: Bytes, len: nat, afterLen: Bytes)
    requires ParseBigSize(bytes) == Some(Parsed(tag, afterTag))
    requires ParseBigSize(afterTag) == Some(Parsed(len, afterLen)) && len <= |afterLen|
    ensures ParseRecord(bytes) == Some(Parsed(TlvRecord(tag, afterLen[..len]), afterLen[len..]))
  {
    hide ParseBigSize;
  }

  lemma ParseEncodeRecord(r: TlvRecord, rest: Bytes)
    requires r.tag <= U64_MAX && |r.value| <= U64_MAX
    ensures ParseRecord(EncodeRecord(r) + rest) == Some(Parsed(r, rest))
  {
    var body := r.value + rest;
    var tail := EncodeBigSize(|r.value|) + body;
    assert EncodeRecord(r) + rest == EncodeBigSize(r.tag) + tail;
    hide *;
    ParseEncodeBigSize(r.tag, tail);
    ParseEncodeBigSize(|r.value|, body);
    RecordOf(EncodeBigSize(r.tag) + tail, r.tag, tail, |r.value|, body);
    assert body[..|r.value|] == r.value && body[|r.value|..] == rest;
  }

  lemma DecodeCons(bytes: Bytes, r: TlvRecord, rest: Bytes)
    requires bytes != [] && ParseRecord(bytes) == Some(Parsed(r, rest))
    ensures DecodeStream(bytes) == Prepend([r], DecodeStream(rest))
  {
    hide ParseRecord;
  }

  lemma {:induction false} DecodeInOrder(rs: seq<TlvRecord>)
    requires Encodable(rs)
    ensures DecodeStream(EncodeInOrder(rs)) == Some(rs)
  {
    if rs != [] {
      hide EncodeRecord, ParseRecord, DecodeStream;
      DecodeInOrder(rs[1..]);
      ParseEncodeRecord(rs[0], EncodeInOrder(rs[1..]));
      EncodeRecordNonempty(rs[0]);
      DecodeCons(EncodeInOrder(rs), rs[0], EncodeInOrder(rs[1..]));
      assert rs == [rs[0]] + rs[1..];
    } else {
      DecodeNothing();
    }
  }

  lemma EncodeRecordNonempty(r: TlvRecord)
    ensures EncodeRecord(r) != []
  {
    hide EncodeBigSize;
  }

  /** Decoding an encoded stream gives the records in stable tag order. */
  lemma DecodeEncode(rs: seq<TlvRecord>)
    requires Encodable(rs)
    ensures DecodeStream(EncodeStream(rs)) == Some(StableSort(rs))
  {
    SortOrders(rs);
    DecodeInOrder(StableSort(rs));
  }

  /** Encoding what was decoded from an encoding changes nothing. */
  lemma EncodeIsIdempotent(rs: seq<TlvRecord>)
    requires Encodable(rs)
    ensures DecodeStream(EncodeStream(rs)).Some?
    ensures EncodeStream(DecodeStream(EncodeStream(rs)).value) == EncodeStream(rs)
  {
    DecodeEncode(rs);
    SortOrders(rs);
    SortFixed(StableSort(rs));
  }

  /** Every tag and every length in the stream is written in its shortest form. */
  predicate AllMinimal(bytes: Bytes)
    decreases |bytes|
  {
    bytes != [] ==>
    && ParseRecord(bytes).Some?
    && MinimalBigSize(bytes) && MinimalBigSize(ParseBigSize(bytes).value.rest)
    && AllMinimal(ParseRecord(bytes).value.rest)
  }

  lemma EncodeBigSizeRead(bytes: Bytes, val: nat, rest: Bytes)
    requires bytes == EncodeBigSize(val) + rest && val <= U64_MAX
    ensures ParseBigSize(bytes) == Some(Parsed(val, rest)) && MinimalBigSize(bytes)
  {
    hide EncodeBigSize, ParseBigSize, MinimalBigSize;
    ParseEncodeBigSize(val, rest);
    MinimalExact(bytes);
  }

  lemma RecordParts(bytes: Bytes)
    requires ParseRecord(bytes).Some?
    ensures var Parsed(r, rest) := ParseRecord(bytes).value;
            && ParseBigSize(bytes).Some? && ParseBigSize(bytes).value.value == r.tag
            && var afterTag := ParseBigSize(bytes).value.rest;
            && ParseBigSize(afterTag) == Some(Parsed(|r.value|, r.value + rest))
  {
    hide ParseBigSize;
    var afterLen := ParseBigSize(ParseBigSize(bytes).value.rest).value;
    assert afterLen.rest == afterLen.rest[..afterLen.value] + afterLen.rest[afterLen.value..];
  }

  lemma RecordMinimal(bytes: Bytes)
    requires ParseRecord(bytes).Some?
    ensures ParseRecord(bytes).value.value.tag <= U64_MAX && |ParseRecord(bytes).value.value.value| <= U64_MAX
    ensures ParseBigSize(bytes).Some?
    ensures MinimalBigSize(bytes) && MinimalBigSize(ParseBigSize(bytes).value.rest)
        <==> EncodeRecord(ParseRecord(bytes).value.value) + ParseRecord(bytes).value.rest == bytes
  {
    hide ParseRecord, ParseBigSize, MinimalBigSize, EncodeBigSize;
    RecordParts(bytes);
    var Parsed(r, rest) := ParseRecord(bytes).value;
    var afterTag := ParseBigSize(bytes).value.rest;
    MinimalExact(bytes);
    MinimalExact(afterTag);
    var tail := EncodeBigSize(|r.value|) + (r.value + rest);
    assert EncodeRecord(r) + rest == EncodeBigSize(r.tag) + tail;
    if EncodeRecord(r) + rest == bytes {
      EncodeBigSizeRead(bytes, r.tag, tail);
    }
  }

  lemma {:induction false} DecodedEncodable(bytes: Bytes)
    requires DecodeStream(bytes).Some?
    ensures Encodable(DecodeStream(bytes).value)
    decreases |bytes|
  {
    if bytes != [] {
      hide ParseRecord, MinimalBigSize, ParseBigSize;
      RecordMinimal(bytes);
      DecodedEncodable(ParseRecord(bytes).value.rest);
    }
  }

  lemma {:induction false} MinimalStreamExact(bytes: Bytes)
    requires DecodeStream(bytes).Some?
    ensures AllMinimal(bytes) <==> EncodeInOrder(DecodeStream(bytes).value) == bytes
    decreases |bytes|
  {
    if bytes != [] {
      hide ParseRecord, MinimalBigSize, ParseBigSize, EncodeRecord;
      RecordMinimal(bytes);
      var Parsed(r, rest) := ParseRecord(bytes).value;
      MinimalStreamExact(rest);
      var rs := DecodeStream(rest).value;
      assert ([r] + rs)[1..] == rs;
      if EncodeRecord(r) + EncodeInOrder(rs) == bytes {
        DecodedEncodable(bytes);
        assert ([r] + rs)[0] in [r] + rs;
        ParseEncodeRecord(r, EncodeInOrder(rs));
      }
    }
  }

  /** Re-encoding accepted bytes gives them back exactly when all their numbers are minimal and
      their tags never decrease. */
  lemma EncodeDecodeExact(bytes: Bytes)
    requires DecodeStream(bytes).Some?
    ensures EncodeStream(DecodeStream(bytes).value) == bytes
        <==> AllMinimal(bytes) && NonDecreasing(DecodeStream(bytes).value)
  {
    var rs := DecodeStream(bytes).value;
    DecodedEncodable(bytes);
    MinimalStreamExact(bytes);
    SortFixed(rs);
    if EncodeStream(rs) == bytes {
      DecodeEncode(rs);
    }
  }
}
