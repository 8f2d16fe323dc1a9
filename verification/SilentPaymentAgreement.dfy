/** What sender and receiver of a silent payment agree on. */
module SilentPaymentAgreement {
  import opened Prelude
  import opened SilentPayments

  // ---------------------------------------------------------------------------------------
  // Arithmetic modulo the group order
  // ---------------------------------------------------------------------------------------

  /** Two multiples of `n` that differ lie at least `n` apart. */
  lemma MultiplesApart(a: nat, b: nat, n: nat)
    requires a < b
    ensures a * n + n <= b * n
  {
    assert b * n == (a + 1) * n + (b - a - 1) * n;
    assert (b - a - 1) * n >= 0;
  }

  lemma ModUnique(v: nat, n: nat, q: nat, r: nat)
    requires v == q * n + r && r < n
    ensures v % n == r
  {
    var q' := v / n;
    if q' < q {
      MultiplesApart(q', q, n);
    } else if q < q' {
      MultiplesApart(q, q', n);
    }
  }

  lemma ModAdd(t: nat, x: nat, n: nat)
    requires n > 0
    ensures (t % n + x) % n == (t + x) % n
  {
    var q, r := t / n, t % n;
    var q', r' := (r + x) / n, (r + x) % n;
    assert t + x == q * n + (q' * n + r');
    assert q * n + q' * n == (q + q') * n;
    ModUnique(t + x, n, q + q', r');
  }

  /** When every partial sum of the secret keys is valid, the sum is the secret key of the
      combined public key. */
  lemma {:induction false} SumIsCombined(keys: seq<Point>)
    requires keys != [] && SumKeys(keys).Ok?
    ensures CombineKeys(keys) == Some(SumKeys(keys).value)
  {
    hide ORDER;
    if |keys| > 1 {
      var front, last := keys[..|keys| - 1], keys[|keys| - 1];
      SumIsCombined(front);
      ModAdd(Total(front), last, ORDER);
    } else {
      assert keys[..0] == [];
      SmallMod(keys[0]);
      assert Total(keys) == keys[0];
    }
  }

  lemma SmallMod(p: Point)
    ensures p % ORDER == p
  {
    ModUnique(p, ORDER, 0, p);
  }

  // ---------------------------------------------------------------------------------------
  // What a scan reports
  // ---------------------------------------------------------------------------------------

  /** Output `j` pays the key of index `k`. */
  ghost predicate Pays(oracle: Oracle, secret: Point, spend: Point, outputs: seq<TxOutput>, k: nat, j: nat) {
    j < |outputs| && OutputKey(oracle, secret, spend, k).Ok?
    && outputs[j].script == Taproot(XOnly(OutputKey(oracle, secret, spend, k).value))
  }

  ghost predicate Hit(oracle: Oracle, secret: Point, spend: Point, outputs: seq<TxOutput>, k: nat) {
    exists j: nat :: Pays(oracle, secret, spend, outputs, k, j)
  }

  /** The scan gets past every index from `start` up to `k`: index 0 may be unused, the others
      must be paid. */
  ghost predicate Passes(oracle: Oracle, secret: Point, spend: Point, outputs: seq<TxOutput>, start: nat, k: nat) {
    forall i: nat :: start <= i < k
           ==> OutputKey(oracle, secret, spend, i).Ok? && (i > 0 ==> Hit(oracle, secret, spend, outputs, i))
  }

  function Report(oracle: Oracle, secret: Point, spend: Point, outputs: seq<TxOutput>, k: nat, j: nat): SilentOutput
    requires j < |outputs| && OutputKey(oracle, secret, spend, k).Ok?
  {
    var key := OutputKey(oracle, secret, spend, k).value;
    SilentOutput(XOnly(key), outputs[j].amount, key, secret)
  }

  /** `o` is the report of some output paying an index that the scan from `start` gets to. */
  ghost predicate Reportable(oracle: Oracle, secret: Point, spend: Point, outputs: seq<TxOutput>, start: nat,
          o: SilentOutput) {
    exists k: nat, j: nat ::
      start <= k < SCAN_LIMIT && Passes(oracle, secret, spend, outputs, start, k)
      && Pays(oracle, secret, spend, outputs, k, j) && o == Report(oracle, secret, spend, outputs, k, j)
  }

  lemma {:induction false} MatchesExact(key: Point, secret: Point, outputs: seq<TxOutput>, o: SilentOutput)
    ensures o in Matches(key, secret, outputs) <==>
            exists j: nat :: j < |outputs| && outputs[j].script == Taproot(XOnly(key))
                             && o == SilentOutput(XOnly(key), outputs[j].amount, key, secret)
    decreases |outputs|
  {
    if outputs != [] {
      hide Matches, XOnly;
      var front, last := outputs[..|outputs| - 1], outputs[|outputs| - 1];
      MatchesExact(key, secret, front, o);
      MatchesStep(key, secret, outputs, o);
      if o in Matches(key, secret, front) {
        var j: nat :| j < |front| && front[j].script == Taproot(XOnly(key))
                      && o == SilentOutput(XOnly(key), front[j].amount, key, secret);
        assert outputs[j] == front[j];
      }
      assert forall j: nat | j < |outputs| :: outputs[j] == if j < |front| then front[j] else last;
    }
  }

  lemma MatchesStep(key: Point, secret: Point, outputs: seq<TxOutput>, o: SilentOutput)
    requires outputs != []
    ensures var front, last := outputs[..|outputs| - 1], outputs[|outputs| - 1];
            o in Matches(key, secret, outputs) <==>
              o in Matches(key, secret, front)
              || (last.script == Taproot(XOnly(key)) && o == SilentOutput(XOnly(key), last.amount, key, secret))
  {
    hide XOnly;
  }

  lemma MatchesIsHit(oracle: Oracle, secret: Point, spend: Point, outputs: seq<TxOutput>, k: nat)
    requires OutputKey(oracle, secret, spend, k).Ok?
    ensures Matches(OutputKey(oracle, secret, spend, k).value, secret, outputs) == []
            <==> !Hit(oracle, secret, spend, outputs, k)
  {
    hide OutputKey, Matches;
    var key := OutputKey(oracle, secret, spend, k).value;
    var found := Matches(key, secret, outputs);
    if found != [] {
      MatchesExact(key, secret, outputs, found[0]);
      var j: nat :| j < |outputs| && outputs[j].script == Taproot(XOnly(key));
      assert Pays(oracle, secret, spend, outputs, k, j);
    }
    if Hit(oracle, secret, spend, outputs, k) {
      var j: nat :| Pays(oracle, secret, spend, outputs, k, j);
      MatchesExact(key, secret, outputs, Report(oracle, secret, spend, outputs, k, j));
    }
  }

  /** A scan fails exactly when it gets to an index whose key cannot be derived. */
  lemma {:induction false} ScanFails(oracle: Oracle, secret: Point, spend: Point, outputs: seq<TxOutput>, start: nat)
    ensures ScanFrom(oracle, secret, spend, outputs, start).Err? <==>
            exists k: nat :: start <= k < SCAN_LIMIT && Passes(oracle, secret, spend, outputs, start, k)
                             && OutputKey(oracle, secret, spend, k).Err?
    decreases SCAN_LIMIT - start
  {
    hide OutputKey, Matches, Hit;
    if start < SCAN_LIMIT {
      assert Passes(oracle, secret, spend, outputs, start, start);
      if OutputKey(oracle, secret, spend, start).Ok? {
        MatchesIsHit(oracle, secret, spend, outputs, start);
        ScanFails(oracle, secret, spend, outputs, start + 1);
        forall k: nat | start < k ensures Passes(oracle, secret, spend, outputs, start, k)
            <==> (start > 0 ==> Hit(oracle, secret, spend, outputs, start))
                 && Passes(oracle, secret, spend, outputs, start + 1, k) {
          PassesStep(oracle, secret, spend, outputs, start, k);
        }
      }
    }
  }

  lemma PassesStep(oracle: Oracle, secret: Point, spend: Point, outputs: seq<TxOutput>, start: nat, k: nat)
    requires start < k && OutputKey(oracle, secret, spend, start).Ok?
    ensures Passes(oracle, secret, spend, outputs, start, k)
            <==> (start > 0 ==> Hit(oracle, secret, spend, outputs, start))
                 && Passes(oracle, secret, spend, outputs, start + 1, k)
  {
    hide OutputKey, Hit;
    if Passes(oracle, secret, spend, outputs, start + 1, k)
       && (start > 0 ==> Hit(oracle, secret, spend, outputs, start))
    {
      forall i: nat | start <= i < k
        ensures OutputKey(oracle, secret, spend, i).Ok? && (i > 0 ==> Hit(oracle, secret, spend, outputs, i)) {
      }
    }
  }

  /** A successful scan reports exactly the outputs that pay an index it gets to. */
  lemma {:induction false} ScanExact(oracle: Oracle, secret: Point, spend: Point, outputs: seq<TxOutput>, start: nat,
          o: SilentOutput)
    requires ScanFrom(oracle, secret, spend, outputs, start).Ok?
    ensures o in ScanFrom(oracle, secret, spend, outputs, start).value
            <==> Reportable(oracle, secret, spend, outputs, start, o)
    decreases SCAN_LIMIT - start
  {
    hide OutputKey, Matches, Hit, Passes, Reportable, Report;
    if start < SCAN_LIMIT {
      var key := OutputKey(oracle, secret, spend, start).value;
      var found := Matches(key, secret, outputs);
      MatchesIsHit(oracle, secret, spend, outputs, start);
      ReportableStep(oracle, secret, spend, outputs, start, o);
      if found != [] || start == 0 {
        ScanExact(oracle, secret, spend, outputs, start + 1, o);
      }
    } else {
      NothingReportable(oracle, secret, spend, outputs, start, o);
    }
  }

  lemma NothingReportable(oracle: Oracle, secret: Point, spend: Point, outputs: seq<TxOutput>, start: nat,
          o: SilentOutput)
    requires start >= SCAN_LIMIT
    ensures !Reportable(oracle, secret, spend, outputs, start, o)
  {
  }

  /** What is reportable from an index on: its own outputs, and those of later indices if the
      scan goes on. */
  lemma ReportableStep(oracle: Oracle, secret: Point, spend: Point, outputs: seq<TxOutput>, start: nat, o: SilentOutput)
    requires start < SCAN_LIMIT && OutputKey(oracle, secret, spend, start).Ok?
    ensures Reportable(oracle, secret, spend, outputs, start, o) <==>
            o in Matches(OutputKey(oracle, secret, spend, start).value, secret, outputs)
            || ((start > 0 ==> Hit(oracle, secret, spend, outputs, start))
                && Reportable(oracle, secret, spend, outputs, start + 1, o))
  {
    hide OutputKey, Matches, Hit, Passes;
    MatchesExact(OutputKey(oracle, secret, spend, start).value, secret, outputs, o);
    assert Passes(oracle, secret, spend, outputs, start, start) by {
      PassesNothing(oracle, secret, spend, outputs, start);
    }
    if o in Matches(OutputKey(oracle, secret, spend, start).value, secret, outputs) {
      var j: nat :| j < |outputs| && outputs[j].script == Taproot(XOnly(OutputKey(oracle, secret, spend, start).value))
                    && o == Report(oracle, secret, spend, outputs, start, j);
      assert Pays(oracle, secret, spend, outputs, start, j);
    }
    forall k: nat | start < k ensures Passes(oracle, secret, spend, outputs, start, k)
        <==> (start > 0 ==> Hit(oracle, secret, spend, outputs, start))
             && Passes(oracle, secret, spend, outputs, start + 1, k) {
      PassesStep(oracle, secret, spend, outputs, start, k);
    }
  }

  lemma PassesNothing(oracle: Oracle, secret: Point, spend: Point, outputs: seq<TxOutput>, start: nat)
    ensures Passes(oracle, secret, spend, outputs, start, start)
  {
  }

  // ---------------------------------------------------------------------------------------
  // Sender and receiver agree
  // ---------------------------------------------------------------------------------------

  /** The sender's key, when the input keys are good and can be summed. */
  function Aggregate(inputs: seq<Input>, freshKey: Point): Result<Point, Error> {
    var keys := CollectKeys(inputs);
    if keys.Err? then Err(keys.error) else SenderKey(keys.value, freshKey)
  }

  /** Both sides of the Diffie-Hellman exchange reach the same secret: the sender from the scan
      public key and its secret key, the receiver from the aggregate public key and the scan
      secret key. */
  lemma SecretsAgree(a: Point, scan: Point, inputHash: Option<nat>)
    ensures SharedSecret(scan, a, inputHash) == SharedSecret(a, scan, inputHash)
  {
    assert scan * a == a * scan;
  }

  /** The receiver's result for a transaction, given what the sender's inputs make public: the
      public keys of exactly those inputs that carry a secret key and, with outpoints, the input
      hash. Without any key there is nothing to hash and only the list of keys to go by. */
  function Detected(oracle: Oracle, inputs: seq<Input>, scan: Point, spend: Point,
          outputs: seq<TxOutput>): Result<seq<SilentOutput>, Error>
    requires CollectKeys(inputs).Ok?
  {
    var keys := CollectKeys(inputs).value;
    var smallest := FindSmallest(CollectOutpoints(inputs));
    var aggregate := if keys == [] then None else CombineKeys(keys);
    if aggregate.Some? && smallest.Some? then
      DetectWithInputHash(oracle, scan, spend, aggregate.value, oracle.inputHash(smallest.value, aggregate.value),
                          outputs)
    else DetectOutputs(oracle, scan, spend, keys, outputs)
  }

  /** Payments 0 to m - 1 of a sender, all in the transaction. Every call that creates an output
      draws a fresh key of its own, for use without input keys. */
  ghost predicate Paid(oracle: Oracle, inputs: seq<Input>, freshKeys: seq<Point>, scan: Point, spend: Point,
          payments: seq<SilentOutput>, outputs: seq<TxOutput>) {
    && |freshKeys| == |payments|
    && forall k: nat :: k < |payments| ==>
         Created(oracle, inputs, freshKeys[k], scan, spend, payments[k].amount, k) == Ok(payments[k])
         && TxOutput(Taproot(payments[k].scriptKey), payments[k].amount) in outputs
  }

  lemma PaidHits(oracle: Oracle, inputs: seq<Input>, freshKeys: seq<Point>, scan: Point, spend: Point,
          payments: seq<SilentOutput>, outputs: seq<TxOutput>, k: nat)
    returns (j: nat)
    requires Paid(oracle, inputs, freshKeys, scan, spend, payments, outputs) && k < |payments|
    ensures |freshKeys| == |payments|
    ensures SenderSecret(oracle, inputs, freshKeys[k], scan).Ok?
    ensures var secret := SenderSecret(oracle, inputs, freshKeys[k], scan).value;
            Pays(oracle, secret, spend, outputs, k, j) && payments[k] == Report(oracle, secret, spend, outputs, k, j)
  {
    hide OutputKey, SenderSecret;
    var secret := SenderSecret(oracle, inputs, freshKeys[k], scan).value;
    j :| j < |outputs| && outputs[j] == TxOutput(Taproot(payments[k].scriptKey), payments[k].amount);
  }

  lemma PaidCollects(oracle: Oracle, inputs: seq<Input>, freshKeys: seq<Point>, scan: Point, spend: Point,
          payments: seq<SilentOutput>, outputs: seq<TxOutput>)
    requires Paid(oracle, inputs, freshKeys, scan, spend, payments, outputs) && payments != []
    ensures CollectKeys(inputs).Ok?
  {
    hide CollectKeys, OutputKey, SenderKey, SharedSecret;
    assert Created(oracle, inputs, freshKeys[0], scan, spend, payments[0].amount, 0).Ok?;
  }

  /** With an input key no fresh one is used. */
  lemma FreshKeyUnused(oracle: Oracle, inputs: seq<Input>, fresh1: Point, fresh2: Point, scan: Point)
    requires CollectKeys(inputs).Ok? && CollectKeys(inputs).value != []
    ensures SenderSecret(oracle, inputs, fresh1, scan) == SenderSecret(oracle, inputs, fresh2, scan)
    ensures Aggregate(inputs, fresh1) == Aggregate(inputs, fresh2)
  {
    hide CollectKeys, SumKeys, SharedSecret, InputHash;
  }

  /** The receiver's route runs the scan with the sender's secret. */
  lemma DetectedIsScan(oracle: Oracle, inputs: seq<Input>, freshKey: Point, scan: Point, spend: Point,
          outputs: seq<TxOutput>)
    requires SenderSecret(oracle, inputs, freshKey, scan).Ok? && outputs != []
    requires CollectKeys(inputs).Ok? && CollectKeys(inputs).value != []
    ensures Detected(oracle, inputs, scan, spend, outputs)
            == ScanFrom(oracle, SenderSecret(oracle, inputs, freshKey, scan).value, spend, outputs, 0)
  {
    hide ScanFrom, SharedSecret, CollectKeys, FindSmallest, CollectOutpoints, CombineKeys;
    var a := Aggregate(inputs, freshKey).value;
    SumIsCombined(CollectKeys(inputs).value);
    SecretsAgree(a, scan, InputHash(oracle, CollectOutpoints(inputs), a));
  }

  /** Agreement: of up to ten outputs made with consecutive indices from 0 out of at least one
      input key the receiver misses none, each with the sender's key and secret; everything it
      reports pays some derived index; and it fails only over a tweak beyond the sender's indices. */
  lemma PaymentsFound(oracle: Oracle, inputs: seq<Input>, freshKeys: seq<Point>, scan: Point, spend: Point,
          payments: seq<SilentOutput>, outputs: seq<TxOutput>)
    requires 0 < |payments| <= SCAN_LIMIT && Paid(oracle, inputs, freshKeys, scan, spend, payments, outputs)
    requires CollectKeys(inputs).Ok? && CollectKeys(inputs).value != []
    ensures SenderSecret(oracle, inputs, freshKeys[0], scan).Ok?
    ensures var secret := SenderSecret(oracle, inputs, freshKeys[0], scan).value;
            var r := Detected(oracle, inputs, scan, spend, outputs);
            if r.Ok? then
              && (forall k | 0 <= k < |payments| :: payments[k] in r.value)
              && (forall o | o in r.value :: Reportable(oracle, secret, spend, outputs, 0, o))
            else
              exists k: nat :: |payments| <= k < SCAN_LIMIT && OutputKey(oracle, secret, spend, k).Err?
  {
    hide *;
    var j0 := PaidHits(oracle, inputs, freshKeys, scan, spend, payments, outputs, 0);
    var secret := SenderSecret(oracle, inputs, freshKeys[0], scan).value;
    PaysOutput(oracle, secret, spend, outputs, 0, j0);
    DetectedIsScan(oracle, inputs, freshKeys[0], scan, spend, outputs);
    var r := ScanFrom(oracle, secret, spend, outputs, 0);
    PaymentsPass(oracle, inputs, freshKeys, scan, spend, payments, outputs);
    if r.Ok? {
      forall o | o in r.value ensures Reportable(oracle, secret, spend, outputs, 0, o) {
        ScanExact(oracle, secret, spend, outputs, 0, o);
      }
      forall k | 0 <= k < |payments| ensures payments[k] in r.value {
        var j := PaidHits(oracle, inputs, freshKeys, scan, spend, payments, outputs, k);
        FreshKeyUnused(oracle, inputs, freshKeys[0], freshKeys[k], scan);
        PaysIsReportable(oracle, secret, spend, outputs, k, j, payments[k]);
        ScanExact(oracle, secret, spend, outputs, 0, payments[k]);
      }
    } else {
      ScanFails(oracle, secret, spend, outputs, 0);
      var k: nat :| 0 <= k < SCAN_LIMIT && Passes(oracle, secret, spend, outputs, 0, k)
                          && OutputKey(oracle, secret, spend, k).Err?;
      if k < |payments| {
        var j := PaidHits(oracle, inputs, freshKeys, scan, spend, payments, outputs, k);
        FreshKeyUnused(oracle, inputs, freshKeys[0], freshKeys[k], scan);
        PaysOutput(oracle, secret, spend, outputs, k, j);
      }
    }
  }

  /** Whenever detection succeeds, it finds the payments exactly when some input carries a key:
      without one the sender uses fresh keys that nobody else learns, and the receiver's list of
      keys is empty. */
  lemma PaymentsFoundExact(oracle: Oracle, inputs: seq<Input>, freshKeys: seq<Point>, scan: Point, spend: Point,
          payments: seq<SilentOutput>, outputs: seq<TxOutput>)
    requires 0 < |payments| <= SCAN_LIMIT && Paid(oracle, inputs, freshKeys, scan, spend, payments, outputs)
    ensures CollectKeys(inputs).Ok?
    ensures var r := Detected(oracle, inputs, scan, spend, outputs);
            && (CollectKeys(inputs).value == [] ==> r == Ok([]))
            && (r.Ok? ==> ((forall k | 0 <= k < |payments| :: payments[k] in r.value)
                           <==> exists input :: input in inputs && input.key.KeyOf?))
  {
    hide *;
    PaidCollects(oracle, inputs, freshKeys, scan, spend, payments, outputs);
    KeysPresent(inputs);
    if CollectKeys(inputs).value == [] {
      NothingDetected(oracle, inputs, scan, spend, outputs);
      assert payments[0] !in [];
    } else {
      PaymentsFound(oracle, inputs, freshKeys, scan, spend, payments, outputs);
    }
  }

  lemma NothingDetected(oracle: Oracle, inputs: seq<Input>, scan: Point, spend: Point, outputs: seq<TxOutput>)
    requires CollectKeys(inputs) == Ok([])
    ensures Detected(oracle, inputs, scan, spend, outputs) == Ok([])
  {
    hide CollectKeys, FindSmallest, CollectOutpoints;
  }

  lemma {:induction false} KeysPresent(inputs: seq<Input>)
    requires CollectKeys(inputs).Ok?
    ensures CollectKeys(inputs).value != [] <==> exists input :: input in inputs && input.key.KeyOf?
  {
    if inputs != [] {
      KeysPresent(inputs[..|inputs| - 1]);
      assert inputs == inputs[..|inputs| - 1] + [inputs[|inputs| - 1]];
    }
  }

  lemma PaysOutput(oracle: Oracle, secret: Point, spend: Point, outputs: seq<TxOutput>, k: nat, j: nat)
    requires Pays(oracle, secret, spend, outputs, k, j)
    ensures outputs != [] && OutputKey(oracle, secret, spend, k).Ok? && Hit(oracle, secret, spend, outputs, k)
  {
  }

  lemma PaysIsReportable(oracle: Oracle, secret: Point, spend: Point, outputs: seq<TxOutput>, k: nat, j: nat,
          o: SilentOutput)
    requires k < SCAN_LIMIT && Passes(oracle, secret, spend, outputs, 0, k)
             && Pays(oracle, secret, spend, outputs, k, j)
    requires o == Report(oracle, secret, spend, outputs, k, j)
    ensures Reportable(oracle, secret, spend, outputs, 0, o)
  {
    hide OutputKey, Passes, Report;
  }

  lemma PaymentsPass(oracle: Oracle, inputs: seq<Input>, freshKeys: seq<Point>, scan: Point, spend: Point,
          payments: seq<SilentOutput>, outputs: seq<TxOutput>)
    requires Paid(oracle, inputs, freshKeys, scan, spend, payments, outputs) && payments != []
    requires CollectKeys(inputs).Ok? && CollectKeys(inputs).value != []
    ensures |freshKeys| > 0 && SenderSecret(oracle, inputs, freshKeys[0], scan).Ok?
    ensures forall k: nat | k < |payments| ::
              Passes(oracle, SenderSecret(oracle, inputs, freshKeys[0], scan).value, spend, outputs, 0, k)
  {
    hide OutputKey, SenderSecret, Hit, Pays, Report, CollectKeys, Created;
    var j0 := PaidHits(oracle, inputs, freshKeys, scan, spend, payments, outputs, 0);
    hide Paid;
    var secret := SenderSecret(oracle, inputs, freshKeys[0], scan).value;
    forall i: nat | i < |payments|
      ensures OutputKey(oracle, secret, spend, i).Ok? && Hit(oracle, secret, spend, outputs, i)
    {
      var j := PaidHits(oracle, inputs, freshKeys, scan, spend, payments, outputs, i);
      FreshKeyUnused(oracle, inputs, freshKeys[0], freshKeys[i], scan);
      PaysOutput(oracle, secret, spend, outputs, i, j);
    }
  }

  /** Without keys or outputs nothing is detected and nothing fails; keys whose sum vanishes are an
      error otherwise. */
  lemma DetectNothing(oracle: Oracle, scan: Point, spend: Point, pubkeys: seq<Point>, outputs: seq<TxOutput>)
    ensures pubkeys == [] || outputs == [] ==> DetectOutputs(oracle, scan, spend, pubkeys, outputs) == Ok([])
    ensures pubkeys != [] && outputs != [] && Total(pubkeys) % ORDER == 0 ==>
              DetectOutputs(oracle, scan, spend, pubkeys, outputs) == Err(KeySumFailed)
  {
    hide ORDER, ScanFrom;
    if |pubkeys| == 1 {
      assert pubkeys[..0] == [];
      assert Total(pubkeys) == pubkeys[0] != 0;
      SmallMod(pubkeys[0]);
    }
  }

  /** Detection from the list of input public keys equals detection from the sender's aggregate. */
  lemma DetectFromInputKeys(oracle: Oracle, inputs: seq<Input>, freshKey: Point, scan: Point, spend: Point,
          outputs: seq<TxOutput>)
    requires Aggregate(inputs, freshKey).Ok? && CollectKeys(inputs).value != []
    ensures DetectOutputs(oracle, scan, spend, CollectKeys(inputs).value, outputs)
            == DetectOutputs(oracle, scan, spend, [Aggregate(inputs, freshKey).value], outputs)
  {
    hide ScanFrom, SharedSecret, CombineKeys, CollectKeys;
    SumIsCombined(CollectKeys(inputs).value);
  }

  /** Detection without an input hash reaches the sender's secret, whatever the hash function,
      exactly when the sender had no outpoint to hash. */
  lemma DetectWithoutHashExact(inputs: seq<Input>, freshKey: Point, scan: Point)
    requires Aggregate(inputs, freshKey).Ok? && SharedSecret(Aggregate(inputs, freshKey).value, scan, None).Ok?
    ensures (forall oracle: Oracle ::
              SenderSecret(oracle, inputs, freshKey, scan)
                == SharedSecret(Aggregate(inputs, freshKey).value, scan, None))
            <==> CollectOutpoints(inputs) == []
  {
    hide CollectKeys, SenderKey, CollectOutpoints, FindSmallest;
    var a, outpoints := Aggregate(inputs, freshKey).value, CollectOutpoints(inputs);
    SecretsAgree(a, scan, None);
    SmallestIsLeast(outpoints);
    if outpoints != [] {
      var doubling := Oracle((o, p) => 2, (p, k) => 0, p => false);
      var ecdh := SharedSecret(a, scan, None).value;
      assert SenderSecret(doubling, inputs, freshKey, scan) == SharedSecret(scan, a, Some(2));
      DoublingMoves(ecdh);
    }
  }

  lemma DoublingMoves(p: Point)
    ensures MulTweak(p, 2) != Some(p)
  {
    if 2 * p < ORDER {
      ModUnique(2 * p, ORDER, 0, 2 * p);
    } else {
      ModUnique(2 * p, ORDER, 1, 2 * p - ORDER);
    }
  }

  // ---------------------------------------------------------------------------------------
  // Spending
  // ---------------------------------------------------------------------------------------

  /** The point opposite to one with an even y coordinate has an odd one. */
  ghost predicate ParityFlips(oracle: Oracle) {
    forall p: Point :: oracle.odd(Negate(p)) != oracle.odd(p)
  }

  /** The derived secret key exists exactly when the output key does; its point is the even one
      of the two points with the output's x-only key. */
  lemma SpendingKeyFits(oracle: Oracle, spend: Point, secret: Point, k: nat)
    requires ParityFlips(oracle)
    ensures DeriveSpendingPrivkey(oracle, spend, secret, k).Ok? <==> OutputKey(oracle, secret, spend, k).Ok?
    ensures DeriveSpendingPrivkey(oracle, spend, secret, k).Ok? ==>
              var key := DeriveSpendingPrivkey(oracle, spend, secret, k).value;
              !oracle.odd(key)
              && forall p: Point ::
                   !oracle.odd(p) && XOnly(p) == XOnly(OutputKey(oracle, secret, spend, k).value) <==> p == key
  {
    hide OutputKey;
    var tweaked := OutputKey(oracle, secret, spend, k);
    if tweaked.Ok? {
      assert oracle.odd(Negate(tweaked.value)) != oracle.odd(tweaked.value);
      assert Negate(Negate(tweaked.value)) == tweaked.value;
    }
  }

  /** A sender's output can be spent by the receiver with the secret that the sender derived. */
  lemma PaymentIsSpendable(oracle: Oracle, inputs: seq<Input>, freshKey: Point, scan: Point, spend: Point,
          amount: nat, k: nat)
    requires ParityFlips(oracle) && Created(oracle, inputs, freshKey, scan, spend, amount, k).Ok?
    ensures var payment := Created(oracle, inputs, freshKey, scan, spend, amount, k).value;
            var key := DeriveSpendingPrivkey(oracle, spend, payment.sharedSecret, k);
            key.Ok? && XOnly(key.value) == payment.scriptKey && !oracle.odd(key.value)
  {
    hide OutputKey, SenderSecret, DeriveSpendingPrivkey;
    SpendingKeyFits(oracle, spend, SenderSecret(oracle, inputs, freshKey, scan).value, k);
  }

  // ---------------------------------------------------------------------------------------
  // The order of the inputs
  // ---------------------------------------------------------------------------------------

  function Weight(input: Input): nat {
    if input.key.KeyOf? then input.key.key else 0
  }

  function Weights(inputs: seq<Input>): nat {
    if inputs == [] then 0 else Weights(inputs[..|inputs| - 1]) + Weight(inputs[|inputs| - 1])
  }

  lemma {:induction false} WeightsRemove(inputs: seq<Input>, j: nat)
    requires j < |inputs|
    ensures Weights(inputs) == Weights(inputs[..j] + inputs[j + 1..]) + Weight(inputs[j])
    decreases |inputs|
  {
    var front := inputs[..|inputs| - 1];
    if j < |front| {
      WeightsRemove(front, j);
      assert (inputs[..j] + inputs[j + 1..])[..|inputs| - 2] == front[..j] + front[j + 1..];
    } else {
      assert inputs[..j] + inputs[j + 1..] == front;
    }
  }

  lemma RemoveOne(s: seq<Input>, j: nat)
    requires j < |s|
    ensures multiset(s[..j] + s[j + 1..]) == multiset(s) - multiset{s[j]}
  {
    assert s == s[..j] + [s[j]] + s[j + 1..];
  }

  lemma {:induction false} WeightsPermute(a: seq<Input>, b: seq<Input>)
    requires multiset(a) == multiset(b)
    ensures Weights(a) == Weights(b)
    decreases |a|
  {
    if a == [] {
      SameSize(a, b);
    } else {
      var last := a[|a| - 1];
      RemoveOne(a, |a| - 1);
      assert a[..|a| - 1] + a[|a|..] == a[..|a| - 1];
      assert last in multiset(b);
      var j :| 0 <= j < |b| && b[j] == last;
      RemoveOne(b, j);
      WeightsPermute(a[..|a| - 1], b[..j] + b[j + 1..]);
      WeightsRemove(b, j);
    }
  }

  lemma SameSize(a: seq<Input>, b: seq<Input>)
    requires multiset(a) == multiset(b)
    ensures |a| == |b|
  {
    assert |multiset(a)| == |multiset(b)|;
  }

  lemma {:induction false} KeysCollected(inputs: seq<Input>)
    ensures CollectKeys(inputs).Err? <==> exists input :: input in inputs && input.key.BadKey?
    ensures CollectKeys(inputs).Err? ==> CollectKeys(inputs).error == BadInputKey
    ensures CollectKeys(inputs).Ok? ==> Total(CollectKeys(inputs).value) == Weights(inputs)
  {
    if inputs != [] {
      KeysCollected(inputs[..|inputs| - 1]);
      var last := inputs[|inputs| - 1];
      assert inputs == inputs[..|inputs| - 1] + [last];
      if last.key.KeyOf? && CollectKeys(inputs[..|inputs| - 1]).Ok? {
        var rest := CollectKeys(inputs[..|inputs| - 1]).value;
        assert (rest + [last.key.key])[..|rest|] == rest;
      }
    }
  }

  lemma {:induction false} OutpointsCollected(inputs: seq<Input>, o: Outpoint)
    ensures o in CollectOutpoints(inputs) <==> exists input :: input in inputs && input.outpoint == Some(o)
  {
    if inputs != [] {
      OutpointsCollected(inputs[..|inputs| - 1], o);
      assert inputs == inputs[..|inputs| - 1] + [inputs[|inputs| - 1]];
    }
  }

  /** The aggregate key is the combined public key of the inputs in any order. */
  lemma AggregatePermutes(a: seq<Input>, b: seq<Input>, freshKey: Point)
    requires multiset(a) == multiset(b)
    requires Aggregate(a, freshKey) != Err(KeySumFailed) && Aggregate(b, freshKey) != Err(KeySumFailed)
    ensures Aggregate(a, freshKey) == Aggregate(b, freshKey)
  {
    hide ORDER, Reduce, SumKeys, CollectKeys, Weights;
    KeysCollected(a);
    KeysCollected(b);
    SameInputs(a, b);
    WeightsPermute(a, b);
    if CollectKeys(a).Ok? {
      var keysA, keysB := CollectKeys(a).value, CollectKeys(b).value;
      SumFails(keysA);
      SumFails(keysB);
      if keysA != [] && keysB != [] {
        SumIsCombined(keysA);
        SumIsCombined(keysB);
      }
    }
  }

  lemma {:induction false} SumFails(keys: seq<Point>)
    ensures keys != [] ==> Total(keys) > 0
    ensures keys != [] && SumKeys(keys).Err? ==> SumKeys(keys).error == KeySumFailed
    decreases |keys|
  {
    hide ORDER, Reduce;
    if |keys| > 1 {
      SumFails(keys[..|keys| - 1]);
    }
  }

  lemma SameInputs(a: seq<Input>, b: seq<Input>)
    requires multiset(a) == multiset(b)
    ensures forall input :: input in a <==> input in b
  {
    forall input ensures input in a <==> input in b {
      assert input in a <==> input in multiset(a);
      assert input in b <==> input in multiset(b);
    }
  }

  lemma SumFailureShows(oracle: Oracle, inputs: seq<Input>, freshKey: Point, scan: Point, spend: Point, amount: nat,
          k: nat)
    ensures Created(oracle, inputs, freshKey, scan, spend, amount, k) == Err(KeySumFailed)
            <==> Aggregate(inputs, freshKey) == Err(KeySumFailed)
  {
    hide CollectKeys, SumKeys, CollectOutpoints, FindSmallest;
  }

  lemma InputOrderIrrelevant(oracle: Oracle, a: seq<Input>, b: seq<Input>, freshKey: Point, scan: Point, spend: Point,
          amount: nat, k: nat)
    requires multiset(a) == multiset(b)
    requires Aggregate(a, freshKey) != Err(KeySumFailed) && Aggregate(b, freshKey) != Err(KeySumFailed)
    ensures Created(oracle, a, freshKey, scan, spend, amount, k) == Created(oracle, b, freshKey, scan, spend, amount, k)
  {
    hide OutputKey, SharedSecret, FindSmallest, CollectKeys, SenderKey, CollectOutpoints;
    AggregatePermutes(a, b, freshKey);
    SameInputs(a, b);
    forall o: Outpoint ensures o in CollectOutpoints(a) <==> o in CollectOutpoints(b) {
      OutpointsCollected(a, o);
      OutpointsCollected(b, o);
    }
    SmallestOfSet(CollectOutpoints(a), CollectOutpoints(b));
  }

  /** Some beginning of at least two keys adds up to a multiple of the group order. */
  ghost predicate SumVanishes(keys: seq<Point>) {
    exists j :: 2 <= j <= |keys| && Total(keys[..j]) % ORDER == 0
  }

  /** The input keys are good and a partial sum of them vanishes. */
  ghost predicate KeysVanish(inputs: seq<Input>) {
    CollectKeys(inputs).Ok? && SumVanishes(CollectKeys(inputs).value)
  }

  lemma SumVanishesStep(keys: seq<Point>)
    requires |keys| >= 2
    ensures SumVanishes(keys) <==> SumVanishes(keys[..|keys| - 1]) || Total(keys) % ORDER == 0
  {
    hide Total;
    var front := keys[..|keys| - 1];
    assert keys[..|keys|] == keys;
    if j :| 2 <= j <= |front| && Total(front[..j]) % ORDER == 0 {
      assert keys[..j] == front[..j];
    }
    if j :| 2 <= j <= |keys| && Total(keys[..j]) % ORDER == 0 {
      if j < |keys| {
        assert keys[..j] == front[..j];
      }
    }
  }

  lemma {:induction false} SumFailsExact(keys: seq<Point>)
    requires keys != []
    ensures SumKeys(keys).Err? <==> SumVanishes(keys)
    decreases |keys|
  {
    hide ORDER, SumVanishes;
    if |keys| > 1 {
      var front, last := keys[..|keys| - 1], keys[|keys| - 1];
      SumFailsExact(front);
      SumVanishesStep(keys);
      if SumKeys(front).Ok? {
        SumIsCombined(front);
        ModAdd(Total(front), last, ORDER);
      }
    } else {
      OneKeyNeverVanishes(keys);
    }
  }

  lemma OneKeyNeverVanishes(keys: seq<Point>)
    requires |keys| < 2
    ensures !SumVanishes(keys)
  {
  }

  lemma AggregateFails(inputs: seq<Input>, freshKey: Point)
    ensures Aggregate(inputs, freshKey) == Err(KeySumFailed) <==> KeysVanish(inputs)
  {
    hide CollectKeys, SumKeys, SumVanishes;
    KeysCollected(inputs);
    if CollectKeys(inputs).Ok? {
      var keys := CollectKeys(inputs).value;
      SumFails(keys);
      if keys == [] {
        OneKeyNeverVanishes(keys);
      } else {
        SumFailsExact(keys);
      }
    }
  }

  /** Two orders of the same inputs give the same result exactly when a partial sum of their keys
      vanishes in both orders or in neither. */
  lemma InputOrderExact(oracle: Oracle, a: seq<Input>, b: seq<Input>, freshKey: Point, scan: Point, spend: Point,
          amount: nat, k: nat)
    requires multiset(a) == multiset(b)
    ensures Created(oracle, a, freshKey, scan, spend, amount, k) == Created(oracle, b, freshKey, scan, spend, amount, k)
            <==> (KeysVanish(a) <==> KeysVanish(b))
  {
    hide *;
    SumFailureShows(oracle, a, freshKey, scan, spend, amount, k);
    SumFailureShows(oracle, b, freshKey, scan, spend, amount, k);
    AggregateFails(a, freshKey);
    AggregateFails(b, freshKey);
    if !KeysVanish(a) && !KeysVanish(b) {
      InputOrderIrrelevant(oracle, a, b, freshKey, scan, spend, amount, k);
    }
  }

  /** Summing can fail in one order and succeed in another: a partial sum may vanish. */
  lemma SumDependsOnOrder()
    ensures SumKeys([1, ORDER - 1, 1]) == Err(KeySumFailed) && SumKeys([1, 1, ORDER - 1]) == Ok(1)
  {
    var failing, working: seq<Point> := [1, ORDER - 1, 1], [1, 1, ORDER - 1];
    assert failing[..2] == [1, ORDER - 1] && failing[..2][..1] == [1];
    assert working[..2] == [1, 1] && working[..2][..1] == [1];
    assert AddTweak(1, ORDER - 1) == None;
    assert SumKeys(failing[..2]) == Err(KeySumFailed);
    assert SumKeys(working[..2]) == Ok(2);
  }

  function Keyed(key: Point): Input {
    Input(None, KeyOf(key))
  }

  /** An output can be created from inputs in one order and not in another: here the keys are 1, 1
      and -1, and the order that adds 1 and -1 first fails. The other gives what a single input
      with key 1 gives. */
  lemma OutputDependsOnOrder(oracle: Oracle, freshKey: Point, scan: Point, spend: Point, amount: nat, k: nat)
    ensures var failing, working := [Keyed(1), Keyed(ORDER - 1), Keyed(1)], [Keyed(1), Keyed(1), Keyed(ORDER - 1)];
            && multiset(failing) == multiset(working)
            && Created(oracle, failing, freshKey, scan, spend, amount, k) == Err(KeySumFailed)
            && Created(oracle, working, freshKey, scan, spend, amount, k)
               == Created(oracle, [Keyed(1)], freshKey, scan, spend, amount, k) != Err(KeySumFailed)
  {
    hide OutputKey, SharedSecret, FindSmallest, SumKeys, CollectKeys, CollectOutpoints;
    SumDependsOnOrder();
    CollectThree(1, ORDER - 1, 1);
    CollectThree(1, 1, ORDER - 1);
    CollectOne(1);
    SumFailureShows(oracle, [Keyed(1)], freshKey, scan, spend, amount, k);
  }

  lemma CollectOne(a: Point)
    ensures CollectKeys([Keyed(a)]) == Ok([a]) && CollectOutpoints([Keyed(a)]) == [] && SumKeys([a]) == Ok(a)
  {
    assert [Keyed(a)][..0] == [] && [] + [a] == [a];
  }

  lemma CollectThree(a: Point, b: Point, c: Point)
    ensures CollectKeys([Keyed(a), Keyed(b), Keyed(c)]) == Ok([a, b, c])
    ensures CollectOutpoints([Keyed(a), Keyed(b), Keyed(c)]) == []
  {
    var inputs := [Keyed(a), Keyed(b), Keyed(c)];
    CollectOne(a);
    assert inputs[..2] == [Keyed(a), Keyed(b)] && inputs[..2][..1] == [Keyed(a)];
    assert CollectKeys(inputs[..2]) == Ok([a] + [b]);
    assert [a] + [b] + [c] == [a, b, c];
    assert CollectOutpoints(inputs[..2]) == [];
  }
}
