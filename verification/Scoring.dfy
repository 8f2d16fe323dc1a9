/** Choosing among the payment methods of a profile. Explanations for people and the plan of an
    Ark route, which only feeds them, are not modelled. */
module Scoring {
  import opened Prelude

  datatype Rail = Lightning | Onchain | Ark

  datatype RouteCandidate = RouteCandidate(
    rail: Rail, feeSats: Option<U64>, timeSeconds: Option<U64>, privacy: nat, reliability: nat, available: bool)

  datatype FeeSnapshot = FeeSnapshot(
    lightningFee: Option<U64>, fastestRate: Option<U64>, halfHourRate: Option<U64>, hourRate: Option<U64>,
    arkFee: Option<U64>)

  datatype Preferences = Preferences(
    preferLowFee: bool, preferSpeed: bool, preferPrivacy: bool, allowExperimentalArk: bool, maxFeeSats: Option<U64>)

  datatype PaymentMethod =
    | LightningMethod(address: Option<string>, lnurl: Option<string>, bolt12: Option<string>,
                      receiverPubkey: Option<string>)
    | OnchainMethod(network: string, address: Option<string>, silentPaymentPubkey: Option<string>,
                    descriptorHint: Option<string>)
    | Bolt12Method(offer: string)
    | ArkMethod(server: string, pubkey: string, vtxoPointer: Option<string>)

  datatype PaymentPointer =
    | LightningAddress(address: string, receiverPubkey: Option<string>)
    | LnurlPay(callbackUrl: string, receiverPubkey: Option<string>)
    | Bolt11Invoice(invoice: string, amountSats: U64)
    | Bolt12Offer(offer: string)
    | OnchainAddress(network: string, address: string)
    | ArkPointer(server: string, arkPubkey: string, vtxoPointer: Option<string>)

  /** The amount, the fees, what the sender wants, what the profile prefers, and which offers
      parse and carry blinded paths. */
  datatype Request = Request(amount: U64, fees: FeeSnapshot, wants: Preferences, profilePrefers: seq<string>,
          blinded: string -> bool)

  datatype Decision = Decision(selected: RouteCandidate, alternatives: seq<RouteCandidate>, pointer: PaymentPointer)

  // ---------------------------------------------------------------------------------------
  // Candidates
  // ---------------------------------------------------------------------------------------

  function OrElse<T>(first: Option<T>, second: Option<T>): Option<T> {
    if first.Some? then first else second
  }

  function UnwrapOr<T>(o: Option<T>, default: T): T {
    if o.Some? then o.value else default
  }

  predicate Contains(text: string, part: string) {
    part <= text || (text != "" && Contains(text[1..], part))
  }

  function Lower(text: string): string {
    if text == "" then ""
    else [if 'A' <= text[0] <= 'Z' then text[0] + ' ' else text[0]] + Lower(text[1..])
  }

  function PolicyComplexity(hint: Option<string>): nat {
    if hint.None? then 1
    else
      var lower := Lower(hint.value);
      if Contains(lower, "multi") then 3
      else if Contains(lower, "tr(") || Contains(lower, "taproot") then 2
      else 1
  }

  predicate Bolt11Like(text: string) {
    "lnbc" <= text || "lntb" <= text
  }

  function LightningFee(q: Request): U64 {
    UnwrapOr(q.fees.lightningFee, if q.amount / 10_000 > 1 then q.amount / 10_000 else 1)
  }

  /** The product wraps around at 64 bits, as it does in a release build. */
  function OnchainFee(q: Request): Option<U64> {
    var rate := OrElse(OrElse(q.fees.fastestRate, q.fees.halfHourRate), q.fees.hourRate);
    if rate.None? then None else Some(rate.value * 141 % TWO_64)
  }

  const DUST_LIMIT: nat := 546

  /** The candidate and pointer of one method, if it gives any. */
  function CandidateOf(m: PaymentMethod, q: Request): Option<(RouteCandidate, PaymentPointer)> {
    match m
    case LightningMethod(address, lnurl, bolt12, key) =>
      if address.Some? then
        Some((RouteCandidate(Lightning, Some(LightningFee(q)), Some(5), 7, 8, true),
              LightningAddress(address.value, key)))
      else if lnurl.Some? then
        Some((RouteCandidate(Lightning, Some(LightningFee(q)), Some(5), 7, 8, true), LnurlPay(lnurl.value, key)))
      else if bolt12.None? then None
      else if Bolt11Like(bolt12.value) then
        Some((RouteCandidate(Lightning, Some(LightningFee(q)), Some(5), 7, 8, true),
              Bolt11Invoice(bolt12.value, q.amount)))
      else
        var privacy := if q.blinded(bolt12.value) then 9 else 8;
        Some((RouteCandidate(Lightning, Some(LightningFee(q)), Some(5), privacy, 8, true),
              Bolt12Offer(bolt12.value)))
    case OnchainMethod(network, address, silent, hint) =>
      var complexity := PolicyComplexity(hint);
      Some((RouteCandidate(Onchain, OnchainFee(q), Some(600), 4, if complexity < 10 then 10 - complexity else 0,
                           q.amount >= DUST_LIMIT && OnchainFee(q).Some?),
            OnchainAddress(network, UnwrapOr(OrElse(silent, address), ""))))
    case Bolt12Method(offer) =>
      Some((RouteCandidate(Lightning, Some(LightningFee(q)), Some(2), if q.blinded(offer) then 9 else 8, 9, true),
            Bolt12Offer(offer)))
    case ArkMethod(server, key, vtxo) =>
      var allowed := q.wants.allowExperimentalArk;
      Some((RouteCandidate(Ark, OrElse(q.fees.arkFee, Some(1)), Some(30), 8, if allowed then 5 else 2, allowed),
            ArkPointer(server, key, vtxo)))
  }

  /** The candidates of a list of methods, in order. */
  function Candidates(methods: seq<PaymentMethod>, q: Request): seq<RouteCandidate> {
    if methods == [] then []
    else
      var last := CandidateOf(methods[|methods| - 1], q);
      Candidates(methods[..|methods| - 1], q) + if last.Some? then [last.value.0] else []
  }

  function Pointers(methods: seq<PaymentMethod>, q: Request): seq<PaymentPointer> {
    if methods == [] then []
    else
      var last := CandidateOf(methods[|methods| - 1], q);
      Pointers(methods[..|methods| - 1], q) + if last.Some? then [last.value.1] else []
  }

  lemma {:induction false} CandidatesExact(methods: seq<PaymentMethod>, q: Request, c: RouteCandidate)
    ensures c in Candidates(methods, q) <==>
            exists i :: 0 <= i < |methods| && CandidateOf(methods[i], q).Some?
                        && CandidateOf(methods[i], q).value.0 == c
    decreases |methods|
  {
    hide CandidateOf;
    if methods != [] {
      CandidatesExact(methods[..|methods| - 1], q, c);
    }
  }

  /** The method behind the k-th candidate: its pointer is the k-th pointer, and the candidates
      around it come from the methods around it. */
  lemma {:induction false} Locate(methods: seq<PaymentMethod>, q: Request, k: nat) returns (i: nat)
    requires k < |Candidates(methods, q)|
    ensures i < |methods| && |Candidates(methods, q)| == |Pointers(methods, q)|
    ensures CandidateOf(methods[i], q) == Some((Candidates(methods, q)[k], Pointers(methods, q)[k]))
    ensures Candidates(methods[..i], q) == Candidates(methods, q)[..k]
    ensures Candidates(methods[i + 1..], q) == Candidates(methods, q)[k + 1..]
    decreases |methods|
  {
    hide CandidateOf;
    var n := |methods| - 1;
    var front := methods[..n];
    SameLength(front, q);
    if k == |Candidates(front, q)| {
      i := n;
      assert methods[i + 1..] == [];
    } else {
      i := Locate(front, q, k);
      assert front[..i] == methods[..i];
      assert methods[i + 1..][..n - i - 1] == front[i + 1..];
    }
  }

  lemma {:induction false} SameLength(methods: seq<PaymentMethod>, q: Request)
    ensures |Candidates(methods, q)| == |Pointers(methods, q)|
  {
    hide CandidateOf;
    if methods != [] {
      SameLength(methods[..|methods| - 1], q);
    }
  }

  // ---------------------------------------------------------------------------------------
  // Scores
  // ---------------------------------------------------------------------------------------

  /** Reading an unsigned 64-bit number as a signed one. */
  function AsI64(n: U64): int {
    if n < TWO_63 then n else n - TWO_64
  }

  /** Division towards zero. */
  function Quotient(a: int, b: int): int
    requires b > 0
  {
    if a >= 0 then a / b else -((-a) / b)
  }

  function RailName(rail: Rail): string {
    match rail
    case Lightning => "lightning"
    case Onchain => "onchain"
    case Ark => "ark"
  }

  function PositionOf(names: seq<string>, name: string): (p: Option<nat>)
    ensures p.Some? ==> p.value < |names| && names[p.value] == name && name !in names[..p.value]
    ensures p.None? ==> name !in names
  {
    if names == [] then None
    else if names[0] == name then Some(0)
    else
      var rest := PositionOf(names[1..], name);
      if rest.None? then None
      else
        assert names[..rest.value + 1] == [names[0]] + names[1..][..rest.value];
        Some(rest.value + 1)
  }

  function FeePenalty(fee: Option<U64>): int {
    Quotient(AsI64(UnwrapOr(fee, 10_000)), 10)
  }

  /** What the profile's own order of rails adds. */
  function PreferenceBonus(rail: Rail, profilePrefers: seq<string>): int {
    var position := PositionOf(profilePrefers, RailName(rail));
    if position.None? then 0 else 50 - position.value * 10
  }

  function Score(c: RouteCandidate, q: Request): int {
    c.reliability * 10
    + c.privacy * (if q.wants.preferPrivacy then 8 else 2)
    - (if q.wants.preferSpeed then Quotient(AsI64(UnwrapOr(c.timeSeconds, 3_600)), 30) else 0)
    - (if q.wants.preferLowFee then FeePenalty(c.feeSats) else 0)
    + (if c.rail.Lightning? && q.amount <= 1_000_000 then 30 else 0)
    + (if c.rail.Onchain? && q.amount >= 1_000_000 then 20 else 0)
    - (if c.rail.Ark? && !q.wants.allowExperimentalArk then 1_000 else 0)
    + PreferenceBonus(c.rail, q.profilePrefers)
  }

  method CandidateScore(c: RouteCandidate, q: Request) returns (score: int)
    ensures score == Score(c, q)
  {
    hide AsI64, Quotient, PositionOf;
    score := 0;
    score := score + c.reliability * 10;
    score := score + c.privacy * (if q.wants.preferPrivacy then 8 else 2);
    if q.wants.preferSpeed {
      score := score - Quotient(AsI64(UnwrapOr(c.timeSeconds, 3_600)), 30);
    }
    if q.wants.preferLowFee {
      score := score - FeePenalty(c.feeSats);
    }
    if c.rail == Lightning && q.amount <= 1_000_000 {
      score := score + 30;
    }
    if c.rail == Onchain && q.amount >= 1_000_000 {
      score := score + 20;
    }
    if c.rail == Ark && !q.wants.allowExperimentalArk {
      score := score - 1_000;
    }
    var position := PositionOf(q.profilePrefers, RailName(c.rail));
    if position.Some? {
      score := score + 50 - position.value * 10;
    }
  }

  /** An available candidate within the sender's fee limit; an unknown fee counts as the largest. */
  predicate Eligible(c: RouteCandidate, q: Request) {
    c.available && (q.wants.maxFeeSats.Some? ==> UnwrapOr(c.feeSats, U64_MAX) <= q.wants.maxFeeSats.value)
  }

  // ---------------------------------------------------------------------------------------
  // The decision
  // ---------------------------------------------------------------------------------------

  /** No eligible candidate of the list scores above `limit`. */
  ghost predicate NoneAbove(list: seq<RouteCandidate>, q: Request, limit: int) {
    forall i | 0 <= i < |list| :: Eligible(list[i], q) ==> Score(list[i], q) <= limit
  }

  /** The decision comes from method `i`: its candidate is selected and its pointer returned; it
      is eligible, no eligible candidate before it scores higher and none after it as high; and
      the alternatives are the candidates of all other methods, in order. */
  ghost predicate IsDecision(methods: seq<PaymentMethod>, q: Request, i: nat, d: Decision) {
    i < |methods| && CandidateOf(methods[i], q) == Some((d.selected, d.pointer)) && Eligible(d.selected, q)
    && NoneAbove(Candidates(methods[..i], q), q, Score(d.selected, q))
    && NoneAbove(Candidates(methods[i + 1..], q), q, Score(d.selected, q) - 1)
    && d.alternatives == Candidates(methods[..i], q) + Candidates(methods[i + 1..], q)
  }

  /** Candidate `k` is the last of the highest scoring eligible ones. */
  ghost predicate Leads(candidates: seq<RouteCandidate>, q: Request, k: nat) {
    k < |candidates| && Eligible(candidates[k], q)
    && NoneAbove(candidates[..k], q, Score(candidates[k], q))
    && NoneAbove(candidates[k + 1..], q, Score(candidates[k], q) - 1)
  }

  lemma FirstLeads(candidates: seq<RouteCandidate>, q: Request)
    requires candidates != [] && Eligible(candidates[|candidates| - 1], q)
    requires forall l | 0 <= l < |candidates| - 1 :: !Eligible(candidates[l], q)
    ensures Leads(candidates, q, |candidates| - 1)
  {
    hide Eligible, Score;
  }

  lemma LeadsNext(candidates: seq<RouteCandidate>, q: Request, k: nat, next: RouteCandidate)
    requires Leads(candidates, q, k)
    ensures var better := Eligible(next, q) && Score(next, q) >= Score(candidates[k], q);
            Leads(candidates + [next], q, if better then |candidates| else k)
  {
    hide Eligible, Score;
    var all, score := candidates + [next], Score(candidates[k], q);
    assert all[..k] == candidates[..k] && all[k + 1..] == candidates[k + 1..] + [next];
    assert all[..|candidates|] == candidates && all[|candidates| + 1..] == [];
    if Eligible(next, q) && Score(next, q) >= score {
      forall l | 0 <= l < |candidates| && Eligible(candidates[l], q) ensures Score(candidates[l], q) <= score {
        if l < k {
          assert candidates[l] == candidates[..k][l];
        } else if l > k {
          assert candidates[l] == candidates[k + 1..][l - k - 1];
        }
      }
    }
  }

  lemma LeaderEligible(candidates: seq<RouteCandidate>, q: Request, k: nat)
    requires Leads(candidates, q, k)
    ensures k < |candidates| && candidates[k] in candidates && Eligible(candidates[k], q)
  {
  }

  /** The two vectors that scoring fills side by side. */
  method CollectCandidates(methods: seq<PaymentMethod>, q: Request)
    returns (candidates: seq<RouteCandidate>, pointers: seq<PaymentPointer>)
    ensures candidates == Candidates(methods, q) && pointers == Pointers(methods, q)
  {
    hide CandidateOf;
    candidates, pointers := [], [];
    for i := 0 to |methods|
      invariant candidates == Candidates(methods[..i], q) && pointers == Pointers(methods[..i], q)
    {
      assert methods[..i + 1][..i] == methods[..i];
      var candidate := CandidateOf(methods[i], q);
      if candidate.None? {
        continue;
      }
      candidates := candidates + [candidate.value.0];
      pointers := pointers + [candidate.value.1];
    }
    assert methods[..|methods|] == methods;
  }

  /** The highest scoring eligible candidate, the last one on a tie. */
  method SelectIndex(candidates: seq<RouteCandidate>, q: Request) returns (best: Option<nat>)
    ensures best.Some? ==> Leads(candidates, q, best.value)
    ensures best.None? <==> forall k | 0 <= k < |candidates| :: !Eligible(candidates[k], q)
  {
    hide Score, Eligible, Leads;
    best := None;
    var bestScore := 0;
    for k := 0 to |candidates|
      invariant best.None? ==> forall l | 0 <= l < k :: !Eligible(candidates[l], q)
      invariant best.Some?
                ==> best.value < k && bestScore == Score(candidates[best.value], q)
                    && Leads(candidates[..k], q, best.value)
    {
      assert candidates[..k] + [candidates[k]] == candidates[..k + 1];
      if best.Some? {
        LeadsNext(candidates[..k], q, best.value, candidates[k]);
      }
      if Eligible(candidates[k], q) {
        var score := CandidateScore(candidates[k], q);
        if best.None? {
          FirstLeads(candidates[..k + 1], q);
        }
        if best.None? || score >= bestScore {
          best := Some(k);
          bestScore := score;
        }
      }
    }
    assert candidates[..|candidates|] == candidates;
    if best.Some? {
      LeaderEligible(candidates, q, best.value);
    }
  }

  method AllButOne(candidates: seq<RouteCandidate>, index: nat) returns (others: seq<RouteCandidate>)
    requires index < |candidates|
    ensures others == candidates[..index] + candidates[index + 1..]
  {
    others := [];
    for k := 0 to |candidates|
      invariant others == if k <= index then candidates[..k] else candidates[..index] + candidates[index + 1..k]
    {
      if k != index {
        others := others + [candidates[k]];
      }
    }
    assert candidates[index + 1..|candidates|] == candidates[index + 1..];
  }

  /** `None` is the error that no route was found. */
  method ScoreRoutes(methods: seq<PaymentMethod>, q: Request) returns (r: Option<Decision>)
    ensures r.Some? ==> exists i: nat :: IsDecision(methods, q, i, r.value)
    ensures r.None? <==> forall c | c in Candidates(methods, q) :: !Eligible(c, q)
  {
    hide CandidateOf, Score, Eligible, Candidates, Pointers;
    var candidates, pointers := CollectCandidates(methods, q);
    var index := SelectIndex(candidates, q);
    if index.None? {
      return None;
    }
    LeaderEligible(candidates, q, index.value);
    ghost var i := Locate(methods, q, index.value);
    var alternatives := AllButOne(candidates, index.value);
    var d := Decision(candidates[index.value], alternatives, pointers[index.value]);
    assert IsDecision(methods, q, i, d);
    return Some(d);
  }

  // ---------------------------------------------------------------------------------------
  // What a decision means
  // ---------------------------------------------------------------------------------------

  lemma AboveMember(list: seq<RouteCandidate>, q: Request, limit: int, c: RouteCandidate)
    requires NoneAbove(list, q, limit) && c in list && Eligible(c, q)
    ensures Score(c, q) <= limit
  {
    hide Eligible, Score;
  }

  /** The candidate of a method stands among the candidates of every part of the list that has
      the method. */
  lemma CandidateListed(methods: seq<PaymentMethod>, q: Request, i: nat)
    requires i < |methods| && CandidateOf(methods[i], q).Some?
    ensures CandidateOf(methods[i], q).value.0 in Candidates(methods, q)
  {
    hide CandidateOf;
    CandidatesExact(methods, q, CandidateOf(methods[i], q).value.0);
  }

  /** At most one decision is possible. */
  lemma DecisionUnique(methods: seq<PaymentMethod>, q: Request, i: nat, d: Decision, i': nat, d': Decision)
    requires IsDecision(methods, q, i, d) && IsDecision(methods, q, i', d')
    ensures i == i' && d == d'
  {
    hide CandidateOf, Eligible, Score, NoneAbove;
    if i < i' {
      NotBoth(methods, q, i, d, i', d');
    } else if i' < i {
      NotBoth(methods, q, i', d', i, d);
    }
  }

  lemma NotBoth(methods: seq<PaymentMethod>, q: Request, i: nat, d: Decision, i': nat, d': Decision)
    requires IsDecision(methods, q, i, d) && IsDecision(methods, q, i', d')
    ensures i' <= i
  {
    hide CandidateOf, Eligible, Score, NoneAbove, Candidates;
    if i < i' {
      assert methods[..i'][i] == methods[i] && methods[i + 1..][i' - i - 1] == methods[i'];
      CandidateListed(methods[..i'], q, i);
      CandidateListed(methods[i + 1..], q, i' - i - 1);
      AboveMember(Candidates(methods[..i'], q), q, Score(d'.selected, q), d.selected);
      AboveMember(Candidates(methods[i + 1..], q), q, Score(d.selected, q) - 1, d'.selected);
      assert false;
    }
  }

  lemma {:induction false} CandidatesConcat(a: seq<PaymentMethod>, b: seq<PaymentMethod>, q: Request)
    ensures Candidates(a + b, q) == Candidates(a, q) + Candidates(b, q)
    decreases |b|
  {
    hide CandidateOf;
    if b == [] {
      assert a + b == a;
    } else {
      assert (a + b)[..|a + b| - 1] == a + b[..|b| - 1];
      CandidatesConcat(a, b[..|b| - 1], q);
    }
  }

  lemma NoneAboveParts(a: seq<RouteCandidate>, b: seq<RouteCandidate>, q: Request, limit: int)
    ensures NoneAbove(a + b, q, limit) <==> NoneAbove(a, q, limit) && NoneAbove(b, q, limit)
  {
    hide Eligible, Score;
    var all := a + b;
    if NoneAbove(all, q, limit) {
      assert forall i | 0 <= i < |a| :: all[i] == a[i];
      assert forall i | 0 <= i < |b| :: all[|a| + i] == b[i];
    }
  }

  function WithoutMethod(methods: seq<PaymentMethod>, j: nat): seq<PaymentMethod>
    requires j < |methods|
  {
    methods[..j] + methods[j + 1..]
  }

  /** Dropping a method that was not selected changes neither the selection nor the pointer. */
  lemma IrrelevantAlternative(methods: seq<PaymentMethod>, q: Request, i: nat, d: Decision, j: nat)
    returns (d': Decision)
    requires IsDecision(methods, q, i, d) && j < |methods| && j != i
    ensures IsDecision(WithoutMethod(methods, j), q, if j < i then i - 1 else i, d')
    ensures d'.selected == d.selected && d'.pointer == d.pointer
  {
    hide CandidateOf, Eligible, Score, NoneAbove, Candidates;
    var fewer, score := WithoutMethod(methods, j), Score(d.selected, q);
    var left, right := methods[..i], methods[i + 1..];
    if j < i {
      DropOne(left, q, j, score);
      assert fewer[..i - 1] == WithoutMethod(left, j) && fewer[i - 1 + 1..] == right && fewer[i - 1] == methods[i];
      d' := d.(alternatives := Candidates(WithoutMethod(left, j), q) + Candidates(right, q));
    } else {
      DropOne(right, q, j - i - 1, score - 1);
      assert fewer[..i] == left && fewer[i + 1..] == WithoutMethod(right, j - i - 1) && fewer[i] == methods[i];
      d' := d.(alternatives := Candidates(left, q) + Candidates(WithoutMethod(right, j - i - 1), q));
    }
  }

  lemma DropOne(methods: seq<PaymentMethod>, q: Request, j: nat, limit: int)
    requires j < |methods| && NoneAbove(Candidates(methods, q), q, limit)
    ensures NoneAbove(Candidates(WithoutMethod(methods, j), q), q, limit)
  {
    hide CandidateOf, Eligible, Score, NoneAbove, Candidates;
    var a, b, c := methods[..j], [methods[j]], methods[j + 1..];
    assert methods == a + (b + c);
    CandidatesConcat(a, b + c, q);
    CandidatesConcat(b, c, q);
    CandidatesConcat(a, c, q);
    NoneAboveParts(Candidates(a, q), Candidates(b, q) + Candidates(c, q), q, limit);
    NoneAboveParts(Candidates(b, q), Candidates(c, q), q, limit);
    NoneAboveParts(Candidates(a, q), Candidates(c, q), q, limit);
  }

  /** What holds of every selected route: an on-chain payment is not dust and has a known fee
      rate, an Ark route was allowed, the fee is within the limit, and the pointer belongs to
      the rail. */
  lemma SelectionIsAllowed(methods: seq<PaymentMethod>, q: Request, i: nat, d: Decision)
    requires IsDecision(methods, q, i, d)
    ensures d.selected.rail.Onchain? ==> q.amount >= DUST_LIMIT && d.selected.feeSats.Some?
    ensures d.selected.rail.Ark? ==> q.wants.allowExperimentalArk
    ensures q.wants.maxFeeSats.Some? && d.selected.feeSats.Some?
            ==> d.selected.feeSats.value <= q.wants.maxFeeSats.value
    ensures d.selected.rail.Onchain? <==> d.pointer.OnchainAddress?
    ensures d.selected.rail.Ark? <==> d.pointer.ArkPointer?
  {
    hide NoneAbove, Candidates, Score, PolicyComplexity, Contains, Lower;
  }

  // ---------------------------------------------------------------------------------------
  // Fees
  // ---------------------------------------------------------------------------------------

  lemma PenaltyOrdered(f: U64, g: U64)
    requires f <= g < TWO_63
    ensures 0 <= FeePenalty(Some(f)) <= FeePenalty(Some(g))
  {
  }

  /** A cheaper fee never scores lower than a fee exactly as long as the fee is below 2^63; from
      there on the fee is read as a negative number and counts as a bonus. */
  lemma FeeOrderExact(c: RouteCandidate, q: Request, fee: U64)
    requires q.wants.preferLowFee
    ensures (forall cheaper: U64 | cheaper <= fee ::
              Score(c.(feeSats := Some(cheaper)), q) >= Score(c.(feeSats := Some(fee)), q))
            <==> fee < TWO_63
  {
    hide PreferenceBonus;
    if fee < TWO_63 {
      forall cheaper: U64 | cheaper <= fee
        ensures Score(c.(feeSats := Some(cheaper)), q) >= Score(c.(feeSats := Some(fee)), q)
      {
        PenaltyOrdered(cheaper, fee);
      }
    } else {
      var cheaper: U64 := TWO_63 - 1;
      assert Score(c.(feeSats := Some(cheaper)), q) < Score(c.(feeSats := Some(fee)), q);
    }
  }

  /** The on-chain fee is 141 times the first rate present, of the fastest, half-hour and hour
      rates, exactly when that product fits 64 bits; without any rate it is unknown. */
  lemma OnchainFeeExact(q: Request, first: nat)
    requires first <= 3
    requires var rates := [q.fees.fastestRate, q.fees.halfHourRate, q.fees.hourRate];
             (forall i | 0 <= i < first :: rates[i].None?) && (first < 3 ==> rates[first].Some?)
    ensures var rates := [q.fees.fastestRate, q.fees.halfHourRate, q.fees.hourRate];
            if first == 3 then OnchainFee(q).None?
            else OnchainFee(q) == Some(rates[first].value * 141) <==> rates[first].value <= U64_MAX / 141
  {
    var rates := [q.fees.fastestRate, q.fees.halfHourRate, q.fees.hourRate];
    assert first > 0 ==> rates[0].None?;
    assert first > 1 ==> rates[1].None?;
    assert first > 2 ==> rates[2].None?;
  }

  /** A rail that the profile names earlier gets a larger bonus; one that it names gets more than
      one that it does not name exactly when at most four names come before it. */
  lemma PreferenceExact(a: Rail, b: Rail, names: seq<string>)
    requires RailName(a) in names
    ensures RailName(b) in names ==>
              (PreferenceBonus(a, names) > PreferenceBonus(b, names)
               <==> PositionOf(names, RailName(a)).value < PositionOf(names, RailName(b)).value)
    ensures RailName(b) !in names ==>
              (PreferenceBonus(a, names) > PreferenceBonus(b, names)
               <==> RailName(a) in if |names| < 5 then names else names[..5])
  {
    var p := PositionOf(names, RailName(a)).value;
    if p < 5 {
      assert names[p] in if |names| < 5 then names else names[..5];
    } else {
      assert RailName(a) !in names[..5] by {
        assert forall i | 0 <= i < 5 :: names[..5][i] == names[..p][i];
      }
    }
  }

  /** The score stays in the signed 64-bit range for reliability and privacy of 8 bits and fewer
      than 2^56 preferences. */
  lemma ScoreFits(c: RouteCandidate, q: Request)
    requires c.reliability < 256 && c.privacy < 256 && |q.profilePrefers| < 0x100_0000_0000_0000
    ensures -(TWO_63 as int) <= Score(c, q) < TWO_63
  {
    hide PositionOf, AsI64, Quotient;
    PenaltyBounded(UnwrapOr(c.feeSats, 10_000), 10);
    PenaltyBounded(UnwrapOr(c.timeSeconds, 3_600), 30);
  }

  lemma PenaltyBounded(n: U64, divisor: int)
    requires divisor >= 10
    ensures -(TWO_63 as int) <= Quotient(AsI64(n), divisor) * 10 <= TWO_63
  {
    var a := AsI64(n);
    assert -(TWO_63 as int) <= a < TWO_63;
    QuotientBounded(if a >= 0 then a else -a, divisor);
  }

  lemma QuotientBounded(a: nat, divisor: int)
    requires divisor >= 10
    ensures a / divisor * 10 <= a
  {
    var k := a / divisor;
    assert a == divisor * k + a % divisor;
    ScaledBound(10, divisor, k);
  }

  lemma ScaledBound(small: nat, large: nat, k: nat)
    requires small <= large
    ensures small * k <= large * k
  {
  }

  // ---------------------------------------------------------------------------------------
  // What each preference does to the score
  // ---------------------------------------------------------------------------------------

  lemma TimePenalty(s: U64, t: U64)
    requires s <= t < TWO_63
    ensures 0 <= Quotient(AsI64(s), 30) == s / 30 <= Quotient(AsI64(t), 30) == t / 30
  {
  }

  /** A sender in a hurry never ranks a faster candidate lower exactly as long as the time is below
      2^63; every 30 seconds cost a point, and an unknown time counts as an hour. Anybody else does
      not look at the time. */
  lemma TimeOrderExact(c: RouteCandidate, q: Request, time: U64)
    ensures q.wants.preferSpeed ==>
              ((forall faster: U64 | faster <= time ::
                  Score(c.(timeSeconds := Some(faster)), q) >= Score(c.(timeSeconds := Some(time)), q))
               <==> time < TWO_63)
    ensures q.wants.preferSpeed && time < TWO_63 ==>
              Score(c.(timeSeconds := Some(time)), q) == Score(c.(timeSeconds := Some(0)), q) - time / 30
    ensures Score(c.(timeSeconds := None), q) == Score(c.(timeSeconds := Some(3_600)), q)
    ensures !q.wants.preferSpeed ==> Score(c.(timeSeconds := Some(time)), q) == Score(c, q)
  {
    hide PreferenceBonus, FeePenalty;
    if time < TWO_63 {
      TimePenalty(0, time);
      forall faster: U64 | faster <= time
        ensures q.wants.preferSpeed ==>
                  Score(c.(timeSeconds := Some(faster)), q) >= Score(c.(timeSeconds := Some(time)), q)
      {
        TimePenalty(faster, time);
      }
    } else if q.wants.preferSpeed {
      var faster: U64 := TWO_63 - 1;
      assert Score(c.(timeSeconds := Some(faster)), q) < Score(c.(timeSeconds := Some(time)), q);
    }
  }

  /** For a sender who minds fees, ten satoshis below 2^63 cost a point and an unknown fee counts as
      10,000 satoshis; anybody else does not look at the fee. */
  lemma FeeCost(c: RouteCandidate, q: Request, fee: U64)
    ensures q.wants.preferLowFee && fee < TWO_63 ==>
              Score(c.(feeSats := Some(fee)), q) == Score(c.(feeSats := Some(0)), q) - fee / 10
    ensures Score(c.(feeSats := None), q) == Score(c.(feeSats := Some(10_000)), q)
    ensures !q.wants.preferLowFee ==> Score(c.(feeSats := Some(fee)), q) == Score(c, q)
  {
    hide PreferenceBonus;
  }

  /** Other things equal, a more private or a more reliable candidate scores higher: a step of
      privacy counts 8 points for a sender who asks for it and 2 for others, a step of reliability
      10. */
  lemma QualityOrder(c: RouteCandidate, q: Request, privacy: nat, reliability: nat)
    ensures Score(c.(privacy := privacy, reliability := reliability), q)
            == Score(c.(privacy := 0, reliability := 0), q) + 10 * reliability
               + (if q.wants.preferPrivacy then 8 else 2) * privacy
    ensures privacy > c.privacy ==> Score(c.(privacy := privacy), q) > Score(c, q)
    ensures reliability > c.reliability ==> Score(c.(reliability := reliability), q) > Score(c, q)
  {
    hide PreferenceBonus, FeePenalty, AsI64, Quotient;
  }

  /** Which rail is ahead, other things equal and without any preference of the profile: up to a
      million satoshis Lightning is 30 points ahead of Ark, from a million on on-chain is 20 points
      ahead, and without the sender's consent Ark falls back by 1,000. */
  lemma RailOrder(c: RouteCandidate, q: Request)
    requires q.profilePrefers == []
    ensures var consent := if q.wants.allowExperimentalArk then 0 else 1_000;
            var ark := Score(c.(rail := Ark), q);
            && (q.amount < 1_000_000 ==>
                  Score(c.(rail := Lightning), q) == ark + 30 + consent
                  && Score(c.(rail := Onchain), q) == ark + consent)
            && (q.amount == 1_000_000 ==>
                  Score(c.(rail := Lightning), q) == ark + 30 + consent
                  && Score(c.(rail := Onchain), q) == ark + 20 + consent)
            && (q.amount > 1_000_000 ==>
                  Score(c.(rail := Lightning), q) == ark + consent
                  && Score(c.(rail := Onchain), q) == ark + 20 + consent)
  {
    hide FeePenalty, AsI64, Quotient;
  }

  lemma {:induction false} FirstPosition(names: seq<string>, name: string, p: nat)
    requires p < |names| && names[p] == name && name !in names[..p]
    ensures PositionOf(names, name) == Some(p)
  {
    if p > 0 {
      assert names[..p][0] == names[0] && names[..p][1..] == names[1..][..p - 1];
      FirstPosition(names[1..], name, p - 1);
    }
  }

  lemma {:induction false} NoPosition(names: seq<string>, name: string)
    requires name !in names
    ensures PositionOf(names, name) == None
  {
    if names != [] {
      NoPosition(names[1..], name);
    }
  }

  /** The rail that the profile names first gains 50 points, and ten less for every name before it;
      a rail that it does not name gains nothing. */
  lemma PreferenceGain(c: RouteCandidate, q: Request, p: nat)
    requires var name := match c.rail case Lightning => "lightning" case Onchain => "onchain" case Ark => "ark";
             p <= |q.profilePrefers| && name !in q.profilePrefers[..p]
             && (p < |q.profilePrefers| ==> q.profilePrefers[p] == name)
    ensures Score(c, q)
            == Score(c, q.(profilePrefers := [])) + if p < |q.profilePrefers| then 50 - 10 * p else 0
  {
    hide FeePenalty, AsI64, Quotient, PositionOf;
    var name := RailName(c.rail);
    NoPosition([], name);
    if p < |q.profilePrefers| {
      FirstPosition(q.profilePrefers, name, p);
    } else {
      assert q.profilePrefers[..p] == q.profilePrefers;
      NoPosition(q.profilePrefers, name);
    }
  }

  // ---------------------------------------------------------------------------------------
  // What each method offers
  // ---------------------------------------------------------------------------------------

  /** Without an estimate the Lightning fee is a satoshi for every full ten thousand, at least one. */
  lemma LightningFeeExact(q: Request, fee: U64)
    ensures LightningFee(q) == fee <==>
            if q.fees.lightningFee.Some? then q.fees.lightningFee.value == fee
            else fee >= 1 && (fee == 1 || 10_000 * fee <= q.amount) && q.amount < 10_000 * (fee + 1)
  {
  }

  /** A Lightning method gives a candidate exactly when it has an address, a callback or an offer,
      and points to the first of these that it has. An offer that is spelled like an invoice is paid
      as one; real offers are more private, the more so with blinded paths. */
  lemma LightningOffer(address: Option<string>, lnurl: Option<string>, bolt12: Option<string>, key: Option<string>,
          q: Request)
    ensures var offer := CandidateOf(LightningMethod(address, lnurl, bolt12, key), q);
            && (offer.None? <==> address.None? && lnurl.None? && bolt12.None?)
            && (offer.Some? ==>
                  var (c, pointer) := offer.value;
                  && c.available && c == RouteCandidate(Lightning, Some(LightningFee(q)), Some(5), c.privacy, 8, true)
                  && (address.Some? ==> pointer == LightningAddress(address.value, key))
                  && (address.None? && lnurl.Some? ==> pointer == LnurlPay(lnurl.value, key))
                  && (address.None? && lnurl.None? ==>
                        pointer == if "lnbc" <= bolt12.value || "lntb" <= bolt12.value
                                   then Bolt11Invoice(bolt12.value, q.amount) else Bolt12Offer(bolt12.value))
                  && c.privacy == if !pointer.Bolt12Offer? then 7 else if q.blinded(pointer.offer) then 9 else 8)
  {
    hide LightningFee;
  }

  /** An offer of its own is always available. */
  lemma Bolt12Route(offer: string, q: Request)
    ensures var privacy := if q.blinded(offer) then 9 else 8;
            CandidateOf(Bolt12Method(offer), q)
            == Some((RouteCandidate(Lightning, Some(LightningFee(q)), Some(2), privacy, 9, true), Bolt12Offer(offer)))
  {
    hide LightningFee;
  }

  /** An Ark method is available, and more reliable, exactly with the sender's consent; without an
      estimate it costs a satoshi. */
  lemma ArkRoute(server: string, key: string, vtxo: Option<string>, q: Request)
    ensures CandidateOf(ArkMethod(server, key, vtxo), q).Some?
    ensures var (c, pointer) := CandidateOf(ArkMethod(server, key, vtxo), q).value;
            && pointer == ArkPointer(server, key, vtxo)
            && (c.available <==> q.wants.allowExperimentalArk)
            && c == RouteCandidate(Ark, c.feeSats, Some(30), 8, if c.available then 5 else 2, c.available)
            && (q.fees.arkFee.Some? ==> c.feeSats == q.fees.arkFee)
            && (q.fees.arkFee.None? ==> c.feeSats == Some(1))
  {
  }

  predicate OccursAt(text: string, part: string, i: nat) {
    i <= |text| && part <= text[i..]
  }

  lemma {:induction false} ContainsExact(text: string, part: string)
    ensures Contains(text, part) <==> exists i: nat :: OccursAt(text, part, i)
  {
    assert text[0..] == text;
    if part <= text {
      assert OccursAt(text, part, 0);
    }
    if text != "" {
      var rest := text[1..];
      ContainsExact(rest, part);
      if i: nat :| OccursAt(rest, part, i) {
        assert text[i + 1..] == rest[i..];
        assert OccursAt(text, part, i + 1);
      }
      if i: nat :| OccursAt(text, part, i) {
        if i > 0 {
          assert text[i..] == rest[i - 1..];
          assert OccursAt(rest, part, i - 1);
        }
      }
    }
  }

  lemma {:induction false} LowerExact(text: string)
    ensures |Lower(text)| == |text|
    ensures forall i | 0 <= i < |text| ::
              Lower(text)[i] == if 'A' <= text[i] <= 'Z' then text[i] - 'A' + 'a' else text[i]
  {
    if text != "" {
      LowerExact(text[1..]);
    }
  }

  /** An on-chain method is available exactly when the amount is no dust and a fee rate is known; it
      points to the silent payment key if there is one, else to the address. A descriptor that in
      lower case mentions `multi` makes it less reliable, one that mentions taproot a little. */
  lemma OnchainRoute(network: string, address: Option<string>, silent: Option<string>, hint: Option<string>,
          q: Request)
    ensures CandidateOf(OnchainMethod(network, address, silent, hint), q).Some?
    ensures var (c, pointer) := CandidateOf(OnchainMethod(network, address, silent, hint), q).value;
            && c == RouteCandidate(Onchain, OnchainFee(q), Some(600), 4, c.reliability, c.available)
            && (c.available <==>
                  q.amount >= 546
                  && (q.fees.fastestRate.Some? || q.fees.halfHourRate.Some? || q.fees.hourRate.Some?))
            && (silent.Some? ==> pointer == OnchainAddress(network, silent.value))
            && (silent.None? && address.Some? ==> pointer == OnchainAddress(network, address.value))
            && (silent.None? && address.None? ==> pointer == OnchainAddress(network, ""))
            && 7 <= c.reliability <= 9
            && (c.reliability == 7 <==> hint.Some? && Contains(Lower(hint.value), "multi"))
            && (c.reliability == 9 <==>
                  hint.None? || !(Contains(Lower(hint.value), "multi") || Contains(Lower(hint.value), "tr(")
                                  || Contains(Lower(hint.value), "taproot")))
  {
    hide Contains, Lower;
  }

  /** A candidate is eligible exactly when it is available and its fee is within the limit; an
      unknown fee is within no limit but the largest. */
  lemma EligibleExact(c: RouteCandidate, q: Request)
    ensures Eligible(c, q) <==>
            c.available
            && (q.wants.maxFeeSats.None? || (c.feeSats.Some? && c.feeSats.value <= q.wants.maxFeeSats.value)
                || q.wants.maxFeeSats.value == U64_MAX)
  {
  }
}
