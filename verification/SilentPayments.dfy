/** Silent payments (BIP-352): how the sender derives output keys, how the receiver scans for
    them, and how it derives the keys to spend them.

    A public key is the exponent of its point, between 1 and the group order; a secret key is the
    same number. An x-only key is a point up to sign. The tagged hashes and the parity of a
    point's y coordinate are arbitrary functions.
  */
module SilentPayments {
  import opened Prelude

  const ORDER: nat := 0xFFFFFFFF_FFFFFFFF_FFFFFFFF_FFFFFFFE_BAAEDCE6_AF48A03B_BFD25E8C_D0364141

  type Point = p: nat | 0 < p < ORDER witness 1

  type Outpoint = o: Bytes | |o| == 36 witness seq(36, _ => 0)

  datatype Oracle = Oracle(inputHash: (Outpoint, Point) -> nat, secretHash: (Point, nat) -> nat, odd: Point -> bool)

  datatype Error = BadInputKey | KeySumFailed | BadHash | SharedSecretFailed | BadTweak | TweakFailed

  /** `None` is the point at infinity, on which the library reports an error. */
  function Reduce(n: nat): Option<Point> {
    if n % ORDER == 0 then None else Some(n % ORDER)
  }

  function MulTweak(p: Point, scalar: nat): Option<Point> {
    Reduce(p * scalar)
  }

  function AddTweak(p: Point, scalar: nat): Option<Point> {
    Reduce(p + scalar)
  }

  function Negate(p: Point): Point {
    ORDER - p
  }

  function XOnly(p: Point): Point {
    if p <= ORDER - p then p else ORDER - p
  }

  // ---------------------------------------------------------------------------------------
  // The smallest outpoint
  // ---------------------------------------------------------------------------------------

  predicate LexLeq(a: Bytes, b: Bytes) {
    a == [] || (b != [] && (a[0] < b[0] || (a[0] == b[0] && LexLeq(a[1..], b[1..]))))
  }

  lemma {:induction false} LexTotal(a: Bytes, b: Bytes)
    ensures LexLeq(a, b) || LexLeq(b, a)
    ensures LexLeq(a, b) && LexLeq(b, a) ==> a == b
  {
    if a != [] && b != [] {
      LexTotal(a[1..], b[1..]);
      assert a == [a[0]] + a[1..] && b == [b[0]] + b[1..];
    }
  }

  lemma {:induction false} LexTransitive(a: Bytes, b: Bytes, c: Bytes)
    requires LexLeq(a, b) && LexLeq(b, c)
    ensures LexLeq(a, c)
  {
    if a != [] && a[0] == b[0] == c[0] {
      LexTransitive(a[1..], b[1..], c[1..]);
    }
  }

  function FindSmallest(outpoints: seq<Outpoint>): Option<Outpoint> {
    if outpoints == [] then None
    else
      var rest, last := FindSmallest(outpoints[..|outpoints| - 1]), outpoints[|outpoints| - 1];
      if rest.None? || (LexLeq(last, rest.value) && last != rest.value) then Some(last) else rest
  }

  lemma {:induction false} SmallestIsLeast(outpoints: seq<Outpoint>)
    ensures FindSmallest(outpoints).None? <==> outpoints == []
    ensures outpoints != [] ==> FindSmallest(outpoints).value in outpoints
    ensures outpoints != [] ==> forall o | o in outpoints :: LexLeq(FindSmallest(outpoints).value, o)
  {
    if outpoints != [] {
      var front, last := outpoints[..|outpoints| - 1], outpoints[|outpoints| - 1];
      SmallestIsLeast(front);
      LexTotal(last, last);
      if front != [] {
        var m := FindSmallest(front).value;
        LexTotal(last, m);
        forall o | o in outpoints ensures LexLeq(FindSmallest(outpoints).value, o) {
          if o in front && FindSmallest(outpoints).value != m {
            LexTransitive(last, m, o);
          }
        }
      }
    }
  }

  /** The smallest outpoint depends only on which outpoints there are. */
  lemma SmallestOfSet(a: seq<Outpoint>, b: seq<Outpoint>)
    requires forall o: Outpoint :: o in a <==> o in b
    ensures FindSmallest(a) == FindSmallest(b)
  {
    SmallestIsLeast(a);
    SmallestIsLeast(b);
    BothEmpty(a, b);
    if a != [] {
      LexTotal(FindSmallest(a).value, FindSmallest(b).value);
    }
  }

  lemma BothEmpty(a: seq<Outpoint>, b: seq<Outpoint>)
    requires forall o: Outpoint :: o in a <==> o in b
    ensures a == [] <==> b == []
  {
    assert a != [] ==> a[0] in b;
    assert b != [] ==> b[0] in a;
  }

  // ---------------------------------------------------------------------------------------
  // The sender
  // ---------------------------------------------------------------------------------------

  datatype InputKey = NoKey | BadKey | KeyOf(key: Point)

  /** `outpoint` is `None` when its text does not parse. */
  datatype Input = Input(outpoint: Option<Outpoint>, key: InputKey)

  datatype SilentOutput = SilentOutput(scriptKey: Point, amount: nat, tweakedPubkey: Point, sharedSecret: Point)

  function CollectKeys(inputs: seq<Input>): Result<seq<Point>, Error> {
    if inputs == [] then Ok([])
    else
      var rest, last := CollectKeys(inputs[..|inputs| - 1]), inputs[|inputs| - 1];
      if rest.Err? then rest
      else match last.key
        case NoKey => rest
        case BadKey => Err(BadInputKey)
        case KeyOf(key) => Ok(rest.value + [key])
  }

  function CollectOutpoints(inputs: seq<Input>): seq<Outpoint> {
    if inputs == [] then []
    else
      CollectOutpoints(inputs[..|inputs| - 1])
      + if inputs[|inputs| - 1].outpoint.Some? then [inputs[|inputs| - 1].outpoint.value] else []
  }

  /** The keys added one after the other; every partial sum must be a valid key. */
  function SumKeys(keys: seq<Point>): Result<Point, Error>
    requires keys != []
  {
    if |keys| == 1 then Ok(keys[0])
    else
      var rest := SumKeys(keys[..|keys| - 1]);
      if rest.Err? then rest
      else
        var sum := AddTweak(rest.value, keys[|keys| - 1]);
        if sum.None? then Err(KeySumFailed) else Ok(sum.value)
  }

  /** Without input keys the sender uses a fresh one. */
  function SenderKey(keys: seq<Point>, freshKey: Point): Result<Point, Error> {
    if keys == [] then Ok(freshKey) else SumKeys(keys)
  }

  /** ECDH with a point, folded with the input hash when there is one. */
  function SharedSecret(point: Point, scalar: Point, inputHash: Option<nat>): Result<Point, Error> {
    if inputHash.Some? && inputHash.value >= ORDER then Err(BadHash)
    else
      var ecdh := MulTweak(point, scalar);
      if ecdh.None? then Err(SharedSecretFailed)
      else if inputHash.None? then Ok(ecdh.value)
      else
        var folded := MulTweak(ecdh.value, inputHash.value);
        if folded.None? then Err(SharedSecretFailed) else Ok(folded.value)
  }

  function InputHash(oracle: Oracle, outpoints: seq<Outpoint>, aggregate: Point): Option<nat> {
    var smallest := FindSmallest(outpoints);
    if smallest.None? then None else Some(oracle.inputHash(smallest.value, aggregate))
  }

  /** The key of output `k` for a shared secret. */
  function OutputKey(oracle: Oracle, secret: Point, spend: Point, k: nat): Result<Point, Error> {
    var tweak := oracle.secretHash(secret, k);
    if tweak >= ORDER then Err(BadTweak)
    else
      var key := AddTweak(spend, tweak);
      if key.None? then Err(TweakFailed) else Ok(key.value)
  }

  function SenderSecret(oracle: Oracle, inputs: seq<Input>, freshKey: Point, scan: Point): Result<Point, Error> {
    var keys := CollectKeys(inputs);
    if keys.Err? then Err(keys.error)
    else
      var a := SenderKey(keys.value, freshKey);
      if a.Err? then a
      else SharedSecret(scan, a.value, InputHash(oracle, CollectOutpoints(inputs), a.value))
  }

  function Created(oracle: Oracle, inputs: seq<Input>, freshKey: Point, scan: Point, spend: Point, amount: nat,
          k: nat): Result<SilentOutput, Error> {
    var secret := SenderSecret(oracle, inputs, freshKey, scan);
    if secret.Err? then Err(secret.error)
    else
      var key := OutputKey(oracle, secret.value, spend, k);
      if key.Err? then Err(key.error) else Ok(SilentOutput(XOnly(key.value), amount, key.value, secret.value))
  }

  lemma {:induction false} KeysStopAtError(inputs: seq<Input>, n: nat)
    requires n <= |inputs| && CollectKeys(inputs[..n]).Err?
    ensures CollectKeys(inputs) == CollectKeys(inputs[..n])
    decreases |inputs|
  {
    if n < |inputs| {
      assert inputs[..|inputs| - 1][..n] == inputs[..n];
      KeysStopAtError(inputs[..|inputs| - 1], n);
    } else {
      assert inputs[..n] == inputs;
    }
  }

  lemma {:induction false} SumStopsAtError(keys: seq<Point>, n: nat)
    requires 0 < n <= |keys| && SumKeys(keys[..n]).Err?
    ensures SumKeys(keys) == SumKeys(keys[..n])
    decreases |keys|
  {
    if n < |keys| {
      assert keys[..|keys| - 1][..n] == keys[..n];
      SumStopsAtError(keys[..|keys| - 1], n);
    } else {
      assert keys[..n] == keys;
    }
  }

  /** One more input. */
  lemma CollectStep(inputs: seq<Input>, i: nat)
    requires i < |inputs|
    ensures CollectKeys(inputs[..i + 1])
            == if CollectKeys(inputs[..i]).Err? then CollectKeys(inputs[..i])
               else match inputs[i].key
                    case NoKey => CollectKeys(inputs[..i])
                    case BadKey => Err(BadInputKey)
                    case KeyOf(key) => Ok(CollectKeys(inputs[..i]).value + [key])
    ensures CollectOutpoints(inputs[..i + 1])
            == CollectOutpoints(inputs[..i]) + if inputs[i].outpoint.Some? then [inputs[i].outpoint.value] else []
  {
    assert inputs[..i + 1][..i] == inputs[..i];
  }

  lemma CollectNothing(inputs: seq<Input>)
    ensures CollectKeys(inputs[..0]) == Ok([]) && CollectOutpoints(inputs[..0]) == []
    ensures inputs[..|inputs|] == inputs
  {
  }

  method CollectInputs(inputs: seq<Input>) returns (keys: Result<seq<Point>, Error>, outpoints: seq<Outpoint>)
    ensures keys == CollectKeys(inputs)
    ensures keys.Ok? ==> outpoints == CollectOutpoints(inputs)
  {
    hide CollectKeys, CollectOutpoints;
    var privkeys: seq<Point> := [];
    outpoints := [];
    CollectNothing(inputs);
    for i := 0 to |inputs|
      invariant CollectKeys(inputs[..i]) == Ok(privkeys) && outpoints == CollectOutpoints(inputs[..i])
    {
      CollectStep(inputs, i);
      match inputs[i].key {
        case NoKey =>
        case BadKey =>
          KeysStopAtError(inputs, i + 1);
          return Err(BadInputKey), [];
        case KeyOf(key) =>
          privkeys := privkeys + [key];
      }
      if inputs[i].outpoint.Some? {
        outpoints := outpoints + [inputs[i].outpoint.value];
      }
    }
    return Ok(privkeys), outpoints;
  }

  /** One more key. */
  lemma SumStep(keys: seq<Point>, i: nat)
    requires 0 < i < |keys| && SumKeys(keys[..i]).Ok?
    ensures var sum := AddTweak(SumKeys(keys[..i]).value, keys[i]);
            SumKeys(keys[..i + 1]) == if sum.None? then Err(KeySumFailed) else Ok(sum.value)
  {
    hide AddTweak;
    assert keys[..i + 1][..i] == keys[..i];
  }

  lemma SumOne(keys: seq<Point>)
    requires keys != []
    ensures SumKeys(keys[..1]) == Ok(keys[0]) && keys[..|keys|] == keys
  {
    hide AddTweak;
  }

  method SumInputs(keys: seq<Point>, freshKey: Point) returns (sender: Result<Point, Error>)
    ensures sender == SenderKey(keys, freshKey)
  {
    hide SumKeys, AddTweak;
    if keys == [] {
      return Ok(freshKey);
    }
    var total := keys[0];
    SumOne(keys);
    for i := 1 to |keys|
      invariant SumKeys(keys[..i]) == Ok(total)
    {
      SumStep(keys, i);
      var sum := AddTweak(total, keys[i]);
      if sum.None? {
        SumStopsAtError(keys, i + 1);
        return Err(KeySumFailed);
      }
      total := sum.value;
    }
    return Ok(total);
  }

  method CreateOutputWithIndex(oracle: Oracle, inputs: seq<Input>, freshKey: Point, scan: Point, spend: Point,
          amount: nat, k: nat)
    returns (r: Result<SilentOutput, Error>)
    ensures r == Created(oracle, inputs, freshKey, scan, spend, amount, k)
  {
    hide CollectKeys, CollectOutpoints, SenderKey, SharedSecret, InputHash, OutputKey, XOnly;
    var privkeys, outpoints := CollectInputs(inputs);
    if privkeys.Err? {
      return Err(privkeys.error);
    }
    var sender := SumInputs(privkeys.value, freshKey);
    if sender.Err? {
      return Err(sender.error);
    }
    var secret := SharedSecret(scan, sender.value, InputHash(oracle, outpoints, sender.value));
    if secret.Err? {
      return Err(secret.error);
    }
    var key := OutputKey(oracle, secret.value, spend, k);
    if key.Err? {
      return Err(key.error);
    }
    return Ok(SilentOutput(XOnly(key.value), amount, key.value, secret.value));
  }

  // ---------------------------------------------------------------------------------------
  // The receiver
  // ---------------------------------------------------------------------------------------

  /** A transaction output: pay-to-taproot of an x-only key, or any other script. */
  datatype Script = Taproot(key: Point) | OtherScript(id: nat)

  datatype TxOutput = TxOutput(script: Script, amount: nat)

  const SCAN_LIMIT: nat := 10

  function Matches(key: Point, secret: Point, outputs: seq<TxOutput>): seq<SilentOutput> {
    if outputs == [] then []
    else
      var last := outputs[|outputs| - 1];
      Matches(key, secret, outputs[..|outputs| - 1])
      + if last.script == Taproot(XOnly(key)) then [SilentOutput(XOnly(key), last.amount, key, secret)] else []
  }

  /** What scanning reports from index `k` on. */
  function ScanFrom(oracle: Oracle, secret: Point, spend: Point, outputs: seq<TxOutput>,
          k: nat): Result<seq<SilentOutput>, Error>
    decreases SCAN_LIMIT - k
  {
    if k >= SCAN_LIMIT then Ok([])
    else
      var key := OutputKey(oracle, secret, spend, k);
      if key.Err? then Err(key.error)
      else
        var found := Matches(key.value, secret, outputs);
        if found == [] && k > 0 then Ok([])
        else
          var rest := ScanFrom(oracle, secret, spend, outputs, k + 1);
          if rest.Err? then rest else Ok(found + rest.value)
  }

  function PrependFound(found: seq<SilentOutput>,
          rest: Result<seq<SilentOutput>, Error>): Result<seq<SilentOutput>, Error> {
    if rest.Err? then rest else Ok(found + rest.value)
  }

  method ScanOutputsForSharedSecret(oracle: Oracle, spend: Point, secret: Point, outputs: seq<TxOutput>)
    returns (r: Result<seq<SilentOutput>, Error>)
    ensures r == ScanFrom(oracle, secret, spend, outputs, 0)
  {
    hide OutputKey;
    var detected: seq<SilentOutput> := [];
    ghost var goal := ScanFrom(oracle, secret, spend, outputs, 0);
    PrependNothing(goal);
    for k := 0 to SCAN_LIMIT
      invariant goal == PrependFound(detected, ScanFrom(oracle, secret, spend, outputs, k))
    {
      var key := OutputKey(oracle, secret, spend, k);
      if key.Err? {
        return Err(key.error);
      }
      ScanStep(oracle, secret, spend, outputs, k, detected);
      ghost var before := detected;
      var matched := false;
      for j := 0 to |outputs|
        invariant detected == before + Matches(key.value, secret, outputs[..j])
        invariant matched <==> Matches(key.value, secret, outputs[..j]) != []
      {
        assert outputs[..j + 1][..j] == outputs[..j];
        if outputs[j].script == Taproot(XOnly(key.value)) {
          detected := detected + [SilentOutput(XOnly(key.value), outputs[j].amount, key.value, secret)];
          matched := true;
        }
      }
      assert outputs[..|outputs|] == outputs;
      if !matched && k > 0 {
        assert detected == before && detected + [] == detected;
        return Ok(detected);
      }
    }
    assert detected + [] == detected;
    return Ok(detected);
  }

  lemma PrependNothing(r: Result<seq<SilentOutput>, Error>)
    ensures PrependFound([], r) == r
  {
    if r.Ok? {
      assert [] + r.value == r.value;
    }
  }

  lemma ScanStep(oracle: Oracle, secret: Point, spend: Point, outputs: seq<TxOutput>, k: nat, found: seq<SilentOutput>)
    requires k < SCAN_LIMIT && OutputKey(oracle, secret, spend, k).Ok?
    ensures var now := Matches(OutputKey(oracle, secret, spend, k).value, secret, outputs);
            PrependFound(found, ScanFrom(oracle, secret, spend, outputs, k))
            == if now == [] && k > 0 then Ok(found + [])
               else PrependFound(found + now, ScanFrom(oracle, secret, spend, outputs, k + 1))
  {
    hide OutputKey, Matches;
    var now := Matches(OutputKey(oracle, secret, spend, k).value, secret, outputs);
    var rest := ScanFrom(oracle, secret, spend, outputs, k + 1);
    if rest.Ok? {
      assert found + (now + rest.value) == (found + now) + rest.value;
    }
  }

  function Total(keys: seq<Point>): nat {
    if keys == [] then 0 else Total(keys[..|keys| - 1]) + keys[|keys| - 1]
  }

  /** The sum of the input public keys. */
  function CombineKeys(pubkeys: seq<Point>): Option<Point> {
    Reduce(Total(pubkeys))
  }

  function DetectWithInputHash(oracle: Oracle, scanKey: Point, spend: Point, aggregate: Point, inputHash: nat,
          outputs: seq<TxOutput>): Result<seq<SilentOutput>, Error>
  {
    var secret := SharedSecret(aggregate, scanKey, Some(inputHash));
    if secret.Err? then Err(secret.error) else ScanFrom(oracle, secret.value, spend, outputs, 0)
  }

  /** Detection without an input hash. */
  function DetectOutputs(oracle: Oracle, scanKey: Point, spend: Point, pubkeys: seq<Point>, outputs: seq<TxOutput>):
    Result<seq<SilentOutput>, Error>
  {
    if pubkeys == [] || outputs == [] then Ok([])
    else
      var aggregate := if |pubkeys| == 1 then Some(pubkeys[0]) else CombineKeys(pubkeys);
      if aggregate.None? then Err(KeySumFailed)
      else
        var secret := SharedSecret(aggregate.value, scanKey, None);
        if secret.Err? then Err(secret.error) else ScanFrom(oracle, secret.value, spend, outputs, 0)
  }

  /** The secret key that spends output `k`: negated when its point has an odd y coordinate. */
  function DeriveSpendingPrivkey(oracle: Oracle, spendKey: Point, secret: Point, k: nat): Result<Point, Error> {
    var tweaked := OutputKey(oracle, secret, spendKey, k);
    if tweaked.Err? then tweaked
    else if oracle.odd(tweaked.value) then Ok(Negate(tweaked.value)) else Ok(tweaked.value)
  }
}
