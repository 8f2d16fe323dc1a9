/** Publishing a payment instruction as a DNS TXT record. Text is its UTF-8 bytes. */
module DnsPublish {
  import opened Prelude
  import opened Utf8

  const TXT_STRING_MAX: nat := 255
  const TTL_ROTATING_ONCHAIN: nat := 300
  const TTL_REUSABLE: nat := 1800

  /** "bitcoin:" */
  const SCHEME: Bytes := [98, 105, 116, 99, 111, 105, 110, 58]

  predicate StartsWith(text: Bytes, prefix: Bytes) {
    prefix <= text
  }

  function Concat(strings: seq<Bytes>): Bytes {
    if strings == [] then [] else strings[0] + Concat(strings[1..])
  }

  // ---------------------------------------------------------------------------------------
  // Splitting into character-strings
  // ---------------------------------------------------------------------------------------

  /** The longest valid beginning of at most `limit` bytes. */
  function LongestCut(text: Bytes, limit: nat): (cut: nat)
    requires limit <= |text|
    ensures cut <= limit && Valid(text[..cut])
    ensures forall n: nat | cut < n <= limit :: !Valid(text[..n])
  {
    if Valid(text[..limit]) then limit
    else
      assert limit > 0 by { assert text[..0] == []; }
      LongestCut(text, limit - 1)
  }

  function Limit(text: Bytes): nat {
    if |text| < TXT_STRING_MAX then |text| else TXT_STRING_MAX
  }

  /** Cutting at the longest valid beginning leaves valid text and takes 252 bytes or all. */
  lemma CutProgress(text: Bytes)
    requires Valid(text)
    ensures var cut := LongestCut(text, Limit(text));
            Valid(text[cut..]) && (cut == |text| || cut >= TXT_STRING_MAX - 3)
  {
    hide Valid, LongestCut;
    var cut := LongestCut(text, Limit(text));
    if |text| <= TXT_STRING_MAX {
      assert text[..|text|] == text;
    } else {
      var good := CutPoint(text, TXT_STRING_MAX);
    }
    assert text[..cut] + text[cut..] == text;
    ValidConcat(text[..cut], text[cut..]);
  }

  /** The character-strings of nonempty text. */
  function Pieces(text: Bytes): (pieces: seq<Bytes>)
    requires Valid(text)
    ensures text == [] <==> pieces == []
    decreases |text|
  {
    if text == [] then []
    else
      var cut := LongestCut(text, Limit(text));
      CutProgress(text);
      [text[..cut]] + Pieces(text[cut..])
  }

  function Chunks(payload: Bytes): (chunks: seq<Bytes>)
    requires Valid(payload)
    ensures chunks != []
  {
    if payload == [] then [[]] else Pieces(payload)
  }

  /** Both loops end on every valid payload: shrinking the end never gives up more than three
      bytes of a full string. */
  method ChunkTxt(payload: Bytes) returns (chunks: seq<Bytes>)
    requires Valid(payload)
    ensures chunks == Chunks(payload)
  {
    hide Pieces, Valid;
    if payload == [] {
      return [[]];
    }
    chunks := [];
    var from := 0;
    assert payload[from..] == payload;
    assert [] + Pieces(payload) == Pieces(payload);
    while from < |payload|
      invariant from <= |payload| && Valid(payload[from..])
      invariant chunks + Pieces(payload[from..]) == Pieces(payload)
    {
      ghost var rest, best := payload[from..], LongestCut(payload[from..], Limit(payload[from..]));
      CutProgress(rest);
      var end := if from + TXT_STRING_MAX < |payload| then from + TXT_STRING_MAX else |payload|;
      while end > from && !Valid(payload[from..end])
        invariant from + best <= end <= from + Limit(rest)
      {
        assert payload[from..end] == rest[..end - from];
        end := end - 1;
      }
      assert payload[from..end] == rest[..end - from];
      ghost var before := chunks;
      PiecesStep(rest);
      chunks := chunks + [payload[from..end]];
      assert before + ([rest[..best]] + Pieces(rest[best..])) == chunks + Pieces(rest[best..]);
      assert rest[best..] == payload[end..];
      from := end;
    }
    assert payload[from..] == [];
    assert Pieces([]) == [];
    assert chunks + [] == chunks;
  }

  lemma PiecesStep(text: Bytes)
    requires Valid(text) && text != []
    ensures var cut := LongestCut(text, Limit(text));
            0 < cut && Valid(text[cut..]) && Pieces(text) == [text[..cut]] + Pieces(text[cut..])
  {
    CutProgress(text);
  }

  /** A character-string that DNS can carry and that is text by itself. */
  ghost predicate FitsTxt(chunk: Bytes) {
    |chunk| <= TXT_STRING_MAX && Valid(chunk)
  }

  lemma {:induction false} PiecesFit(text: Bytes)
    requires Valid(text)
    ensures Concat(Pieces(text)) == text
    ensures forall i | 0 <= i < |Pieces(text)| :: FitsTxt(Pieces(text)[i])
    ensures forall i | 0 <= i < |Pieces(text)| - 1 :: |Pieces(text)[i]| >= TXT_STRING_MAX - 3
    decreases |text|
  {
    hide Valid;
    if text != [] {
      CutProgress(text);
      PiecesStep(text);
      var cut := LongestCut(text, Limit(text));
      PiecesFit(text[cut..]);
      assert text[..cut] + text[cut..] == text;
      assert Concat([text[..cut]] + Pieces(text[cut..])) == text[..cut] + Concat(Pieces(text[cut..])) by {
        assert ([text[..cut]] + Pieces(text[cut..]))[1..] == Pieces(text[cut..]);
      }
    }
  }

  lemma {:induction false} LongConcat(chunks: seq<Bytes>, n: nat)
    requires n <= |chunks| && forall i | 0 <= i < n :: |chunks[i]| >= TXT_STRING_MAX - 3
    ensures |Concat(chunks)| >= n * (TXT_STRING_MAX - 3)
    decreases |chunks|
  {
    if n > 0 {
      LongConcat(chunks[1..], n - 1);
    }
  }

  /** Splitting loses nothing, every string is carriable text, and all but the last are full up
      to three bytes. */
  lemma {:induction false} ChunksFit(payload: Bytes)
    requires Valid(payload)
    ensures Concat(Chunks(payload)) == payload
    ensures forall i | 0 <= i < |Chunks(payload)| :: FitsTxt(Chunks(payload)[i])
    ensures forall i | 0 <= i < |Chunks(payload)| - 1 :: |Chunks(payload)[i]| >= TXT_STRING_MAX - 3
    ensures (|Chunks(payload)| - 1) * (TXT_STRING_MAX - 3) <= |payload|
  {
    PiecesFit(payload);
    LongConcat(Chunks(payload), |Chunks(payload)| - 1);
    if payload == [] {
      assert Concat([[]]) == [];
    }
  }

  // ---------------------------------------------------------------------------------------
  // How many strings
  // ---------------------------------------------------------------------------------------

  /** The total length of the first `n` cuts. */
  function CutTotal(text: Bytes, n: nat): (total: nat)
    requires Valid(text)
    ensures total <= |text|
    decreases |text|
  {
    if n == 0 || text == [] then 0
    else
      var cut := LongestCut(text, Limit(text));
      CutProgress(text);
      cut + CutTotal(text[cut..], n - 1)
  }

  /** More than `n` strings are needed exactly when the first `n` cuts leave something over. */
  lemma {:induction false} CountExact(text: Bytes, n: nat)
    requires Valid(text)
    ensures |Pieces(text)| > n <==> |text| > CutTotal(text, n)
    ensures |Pieces(text)| > n ==> CutTotal(text, n) >= n * (TXT_STRING_MAX - 3)
    decreases |text|
  {
    hide Valid;
    if n > 0 && text != [] {
      CutProgress(text);
      PiecesStep(text);
      CountExact(text[LongestCut(text, Limit(text))..], n - 1);
    }
  }

  ghost predicate IsAscii(text: Bytes) {
    forall i | 0 <= i < |text| :: text[i] < 0x80
  }

  lemma {:induction false} AsciiValid(text: Bytes)
    requires IsAscii(text)
    ensures Valid(text)
    decreases |text|
  {
    if text != [] {
      AsciiValid(text[1..]);
    }
  }

  /** Text of ASCII characters only fills every string. */
  lemma {:induction false} AsciiCount(text: Bytes)
    requires IsAscii(text)
    ensures Valid(text) && |Pieces(text)| == (|text| + TXT_STRING_MAX - 1) / TXT_STRING_MAX
    decreases |text|
  {
    hide Valid;
    AsciiValid(text);
    if text != [] {
      var cut := LongestCut(text, Limit(text));
      AsciiValid(text[..Limit(text)]);
      PiecesStep(text);
      AsciiCount(text[cut..]);
    }
  }

  /** A character of four bytes. */
  const WIDE: Bytes := [0xF0, 0x9F, 0x98, 0x80]

  function Wides(n: nat): (text: Bytes)
    ensures |text| == 4 * n
  {
    if n == 0 then [] else WIDE + Wides(n - 1)
  }

  lemma {:induction false} WidesValid(n: nat)
    ensures Valid(Wides(n))
  {
    if n > 0 {
      WidesValid(n - 1);
      WideValid();
      ValidConcat(WIDE, Wides(n - 1));
    }
  }

  lemma WideValid()
    ensures Valid(WIDE)
    ensures forall n | 1 <= n <= 3 :: !Valid(WIDE[..n])
  {
    assert WIDE[4..] == [];
  }

  lemma {:induction false} WidesSplit(m: nat, n: nat)
    ensures Wides(m + n) == Wides(m) + Wides(n)
  {
    if m == 0 {
      assert [] + Wides(n) == Wides(n);
    } else {
      WidesSplit(m - 1, n);
      assert WIDE + (Wides(m - 1) + Wides(n)) == (WIDE + Wides(m - 1)) + Wides(n);
    }
  }

  /** A full string of wide characters after `head` wastes three bytes. */
  lemma WideCut(head: Bytes, n: nat)
    requires Valid(head) && |head| == TXT_STRING_MAX - 3 && n > 0
    ensures var text := head + Wides(n);
            Valid(text) && LongestCut(text, Limit(text)) == |head| && text[|head|..] == Wides(n)
  {
    hide Valid, LongestCut;
    var text := head + Wides(n);
    WidesValid(n);
    ValidConcat(head, Wides(n));
    var cut := LongestCut(text, Limit(text));
    CutProgress(text);
    if cut > |head| {
      assert text[..cut] == head + WIDE[..cut - |head|];
      ValidConcat(head, WIDE[..cut - |head|]);
      WideValid();
    }
  }

  lemma WidePiece(head: Bytes, n: nat)
    requires Valid(head) && |head| == TXT_STRING_MAX - 3 && n > 0
    ensures Valid(head + Wides(n)) && Valid(Wides(n)) && |Pieces(head + Wides(n))| == 1 + |Pieces(Wides(n))|
  {
    hide Valid, LongestCut, Pieces;
    WideCut(head, n);
    PiecesStep(head + Wides(n));
    WidesValid(n);
  }

  lemma {:induction false} WidesCount(n: nat)
    requires n > 0
    ensures Valid(Wides(n)) && |Pieces(Wides(n))| == (n + 62) / 63
  {
    hide Valid, LongestCut, Wides, Pieces;
    WidesValid(n);
    if n <= 63 {
      OnePiece(Wides(n));
    } else {
      WidesSplit(63, n - 63);
      WidesValid(63);
      WidePiece(Wides(63), n - 63);
      WidesCount(n - 63);
    }
  }

  lemma OnePiece(text: Bytes)
    requires Valid(text) && 0 < |text| <= TXT_STRING_MAX
    ensures |Pieces(text)| == 1
  {
    hide Valid;
    assert text[..|text|] == text;
    PiecesStep(text);
    assert text[|text|..] == [];
  }

  // ---------------------------------------------------------------------------------------
  // Publishing plans
  // ---------------------------------------------------------------------------------------

  datatype Error = NotBitcoinUri | PrivateMaterial | TooLarge

  /** The user part of a payment name and its DNS name `user.user._bitcoin-payment.domain`. */
  datatype Name = Name(user: Bytes, dnsName: Bytes)

  /** ".user._bitcoin-payment." */
  const LABEL: Bytes :=
    [46, 117, 115, 101, 114, 46, 95, 98, 105, 116, 99, 111, 105, 110, 45, 112, 97, 121, 109, 101, 110, 116, 46]

  datatype Plan =
    | DirectTxt(fqdn: Bytes, txtChunks: seq<Bytes>, ttlSeconds: nat, rotating: bool)
    | CnameDelegation(receiverCname: Bytes, managedTarget: Bytes, managedTxt: Bytes, txtChunks: seq<Bytes>,
                      ttlSeconds: nat, rotating: bool)
  {
    /** Where the receiver's own name leads: to the record itself, or along the CNAME. */
    function Follow(name: Bytes): Option<Bytes> {
      match this
      case DirectTxt(fqdn, _, _, _) => if name == fqdn then Some(fqdn) else None
      case CnameDelegation(cname, target, _, _, _, _) => if name == cname then Some(target) else None
    }

    /** The name that the plan's TXT record is kept under. */
    function TxtName(): Bytes {
      match this
      case DirectTxt(fqdn, _, _, _) => fqdn
      case CnameDelegation(_, _, managedTxt, _, _, _) => managedTxt
    }
  }

  /** `isPrivate` is the screen for forbidden terms. */
  function CheckPublic(payload: Bytes, isPrivate: Bytes -> bool): Result<(), Error> {
    if !StartsWith(payload, SCHEME) then Err(NotBitcoinUri)
    else if isPrivate(payload) then Err(PrivateMaterial)
    else if |payload| > TXT_STRING_MAX * 8 then Err(TooLarge)
    else Ok(())
  }

  /** An address after the scheme rotates; a bare query does not. */
  predicate HasOnchain(uri: Bytes) {
    StartsWith(uri, SCHEME) && |uri| > |SCHEME| && uri[|SCHEME|] != 63
  }

  function Ttl(uri: Bytes): nat {
    if HasOnchain(uri) then TTL_ROTATING_ONCHAIN else TTL_REUSABLE
  }

  function PlanDirectTxt(name: Name, uri: Bytes, isPrivate: Bytes -> bool): Result<Plan, Error>
    requires Valid(uri)
  {
    var check := CheckPublic(uri, isPrivate);
    if check.Err? then Err(check.error)
    else Ok(DirectTxt(name.dnsName, Chunks(uri), Ttl(uri), HasOnchain(uri)))
  }

  function PlanCnameDelegation(name: Name, managedDomain: Bytes, uri: Bytes,
          isPrivate: Bytes -> bool): Result<Plan, Error>
    requires Valid(uri)
  {
    var check := CheckPublic(uri, isPrivate);
    if check.Err? then Err(check.error)
    else
      var target := name.user + LABEL + managedDomain;
      Ok(CnameDelegation(name.dnsName, target, target, Chunks(uri), Ttl(uri), HasOnchain(uri)))
  }

  /** One of the two kinds of plan for a URI. */
  ghost predicate IsPlan(name: Name, managedDomain: Bytes, uri: Bytes, isPrivate: Bytes -> bool,
          plan: Result<Plan, Error>)
    requires Valid(uri)
  {
    plan == PlanDirectTxt(name, uri, isPrivate) || plan == PlanCnameDelegation(name, managedDomain, uri, isPrivate)
  }

  /** A plan of either kind exists exactly for small public payment instructions. Its record is
      where the receiver's name leads and carries the URI in at most nine strings; eight suffice
      exactly when the first eight cuts take all of it, which they do for up to 2016 bytes. */
  lemma {:induction false} PlanExact(name: Name, managedDomain: Bytes, uri: Bytes, isPrivate: Bytes -> bool,
          plan: Result<Plan, Error>)
    requires Valid(uri) && IsPlan(name, managedDomain, uri, isPrivate, plan)
    ensures plan.Ok? <==> SCHEME <= uri && !isPrivate(uri) && |uri| <= 2040
    ensures plan.Ok? ==>
              && Concat(plan.value.txtChunks) == uri && (forall c | c in plan.value.txtChunks :: FitsTxt(c))
              && plan.value.Follow(name.dnsName) == Some(plan.value.TxtName())
              && (plan.value.ttlSeconds == TTL_ROTATING_ONCHAIN <==> plan.value.rotating)
              && |plan.value.txtChunks| <= 9
              && (|plan.value.txtChunks| <= 8 <==> |uri| <= CutTotal(uri, 8))
              && (|uri| <= 2016 ==> |plan.value.txtChunks| <= 8)
  {
    hide Pieces, Valid, CutTotal;
    ChunksFit(uri);
    CountExact(uri, 8);
  }

  /** A plan whose URI has anything but a query after the scheme rotates and is kept for 300
      seconds; any other is kept for 1800. */
  lemma {:induction false} TtlExact(name: Name, managedDomain: Bytes, uri: Bytes, isPrivate: Bytes -> bool,
          plan: Result<Plan, Error>, rest: Bytes)
    requires Valid(uri) && IsPlan(name, managedDomain, uri, isPrivate, plan) && plan.Ok?
    requires uri == [98, 105, 116, 99, 111, 105, 110, 58] + rest
    ensures plan.value.rotating <==> rest != [] && rest[0] != '?' as int
    ensures plan.value.ttlSeconds == if plan.value.rotating then 300 else 1800
  {
    hide Chunks, Valid;
    assert rest != [] ==> uri[8] == rest[0];
  }

  /** The receiver's own record carries the strings, or leads by its CNAME to the name of the same
      user in the managed domain. */
  lemma {:induction false} NamesExact(name: Name, managedDomain: Bytes, uri: Bytes, isPrivate: Bytes -> bool)
    requires Valid(uri) && SCHEME <= uri && !isPrivate(uri) && |uri| <= 2040
    ensures PlanDirectTxt(name, uri, isPrivate).Ok?
    ensures var plan := PlanDirectTxt(name, uri, isPrivate).value; plan.DirectTxt? && plan.fqdn == name.dnsName
    ensures PlanCnameDelegation(name, managedDomain, uri, isPrivate).Ok?
    ensures var plan := PlanCnameDelegation(name, managedDomain, uri, isPrivate).value;
            var served := name.user + LABEL + managedDomain;
            && plan.CnameDelegation? && plan.receiverCname == name.dnsName
            && plan.managedTarget == plan.managedTxt == served
            && |served| == |name.user| + 23 + |managedDomain|
            && name.user <= served && served[|served| - |managedDomain|..] == managedDomain
  {
    hide Chunks, Valid;
  }

  /** An ASCII instruction fills its strings, so that it never needs a ninth. */
  lemma {:induction false} AsciiPlan(name: Name, managedDomain: Bytes, uri: Bytes, isPrivate: Bytes -> bool,
          plan: Result<Plan, Error>)
    requires IsAscii(uri)
    requires Valid(uri) && IsPlan(name, managedDomain, uri, isPrivate, plan)
    ensures plan.Ok? ==> |plan.value.txtChunks| == (|uri| + TXT_STRING_MAX - 1) / TXT_STRING_MAX <= 8
  {
    hide Pieces, Valid;
    AsciiCount(uri);
  }

  /** The largest instruction of wide characters needs nine strings. */
  lemma NineStrings(name: Name, isPrivate: Bytes -> bool)
    requires !isPrivate(SCHEME + Wides(508))
    ensures var uri := SCHEME + Wides(508);
            && |uri| == 2040 && Valid(uri)
            && PlanDirectTxt(name, uri, isPrivate).Ok? && |PlanDirectTxt(name, uri, isPrivate).value.txtChunks| == 9
  {
    hide Valid, Pieces, Wides, LongestCut;
    var uri, head := SCHEME + Wides(508), SCHEME + Wides(61);
    assert Valid(SCHEME) by {
      AsciiValid(SCHEME);
    }
    WidesValid(61);
    ValidConcat(SCHEME, Wides(61));
    WidesSplit(61, 447);
    assert uri == head + Wides(447);
    WidePiece(head, 447);
    WidesCount(447);
    assert SCHEME == uri[..|SCHEME|];
  }
}
