/** The keys of silent payments in numbers: which outputs a sender creates, what a scan reports and
    which key spends an output, all modulo the group order.
  */
module SilentPaymentKeys {
  import opened Prelude
  import opened SilentPayments
  import opened SilentPaymentAgreement

  // ---------------------------------------------------------------------------------------
  // Vocabulary
  // ---------------------------------------------------------------------------------------

  /** Two x-only keys are equal exactly for one point or two opposite ones. */
  lemma XOnlyExact(p: Point, q: Point)
    ensures XOnly(p) == XOnly(q) <==> p == q || p + q == ORDER
    ensures XOnly(p) == p || XOnly(p) + p == ORDER
  {
  }

  /** At the first byte in which they differ, `a` is smaller. */
  ghost predicate SmallerAt(a: Bytes, b: Bytes, i: nat) {
    i < |a| && i < |b| && a[..i] == b[..i] && a[i] < b[i]
  }

  lemma PrefixCons(a: Bytes, b: Bytes)
    requires a != [] && b != [] && a[0] == b[0]
    ensures a <= b <==> a[1..] <= b[1..]
  {
    if a <= b {
      assert a[1..] == b[1..|a|];
    }
    assert a == [a[0]] + a[1..] && b == [a[0]] + b[1..];
  }

  lemma SmallerCons(a: Bytes, b: Bytes, i: nat)
    requires a != [] && b != [] && a[0] == b[0]
    ensures !SmallerAt(a, b, 0)
    ensures SmallerAt(a, b, i + 1) <==> SmallerAt(a[1..], b[1..], i)
  {
    if i + 1 < |a| && i + 1 < |b| {
      assert a[..i + 1] == [a[0]] + a[1..][..i] && b[..i + 1] == [a[0]] + b[1..][..i];
      assert a[..i + 1][1..] == a[1..][..i] && b[..i + 1][1..] == b[1..][..i];
    }
  }

  lemma SmallerFirst(a: Bytes, b: Bytes, i: nat)
    requires a != [] && b != [] && a[0] != b[0]
    ensures !(a <= b) && (SmallerAt(a, b, i) <==> i == 0 && a[0] < b[0])
  {
    if 0 < i < |a| && i < |b| {
      assert a[..i][0] == a[0] && b[..i][0] == b[0];
    }
  }

  /** One text precedes another when it is a beginning of it or is smaller at the first byte in
      which they differ. */
  lemma {:induction false} LexExact(a: Bytes, b: Bytes)
    ensures LexLeq(a, b) <==> a <= b || exists i: nat :: SmallerAt(a, b, i)
  {
    if a != [] && b != [] {
      hide SmallerAt;
      if a[0] == b[0] {
        LexExact(a[1..], b[1..]);
        PrefixCons(a, b);
        forall i: nat ensures SmallerAt(a, b, i) <==> i > 0 && SmallerAt(a[1..], b[1..], i - 1) {
          SmallerCons(a, b, if i > 0 then i - 1 else 0);
        }
        if i: nat :| SmallerAt(a[1..], b[1..], i) {
          assert SmallerAt(a, b, i + 1);
        }
      } else {
        SmallerFirst(a, b, 0);
        forall i: nat ensures SmallerAt(a, b, i) <==> i == 0 && a[0] < b[0] {
          SmallerFirst(a, b, i);
        }
      }
    }
  }

  ghost predicate HasBadKey(inputs: seq<Input>) {
    exists input :: input in inputs && input.key.BadKey?
  }

  /** The keys of some beginning of the inputs add up to zero modulo the order. */
  ghost predicate SumVanishesIn(inputs: seq<Input>) {
    exists n :: 0 <= n <= |inputs| && Weights(inputs[..n]) > 0 && Weights(inputs[..n]) % ORDER == 0
  }

  /** The sender's key: the sum of its input keys modulo the order, or a fresh one without any. */
  ghost function KeySum(inputs: seq<Input>, freshKey: Point): Option<Point> {
    if HasBadKey(inputs) || SumVanishesIn(inputs) then None
    else if Weights(inputs) == 0 then Some(freshKey)
    else
      assert inputs[..|inputs|] == inputs;
      Some(Weights(inputs) % ORDER)
  }

  /** The lexicographically least outpoint of the inputs, if any has one. */
  ghost predicate IsLeast(inputs: seq<Input>, least: Option<Outpoint>) {
    if least.None? then forall input | input in inputs :: input.outpoint.None?
    else
      && (exists input :: input in inputs && input.outpoint == least)
      && forall input | input in inputs && input.outpoint.Some? :: LexLeq(least.value, input.outpoint.value)
  }

  /** The key of index `k` is the spend key plus the hash of shared secret and index. */
  predicate IsTweaked(oracle: Oracle, secret: Point, spend: Point, k: nat, key: Point) {
    oracle.secretHash(secret, k) < ORDER && key == (spend + oracle.secretHash(secret, k)) % ORDER
  }

  // ---------------------------------------------------------------------------------------
  // Sums and products
  // ---------------------------------------------------------------------------------------

  lemma Expand(q: nat, n: nat, r: nat, h: nat)
    ensures (q * n + r) * h == (q * h) * n + r * h && q * h >= 0 && r * h >= 0
  {
    assert q * n * h == q * h * n;
  }

  lemma AddMultiple(v: nat, q: nat, n: nat)
    requires n > 0
    ensures (q * n + v) % n == v % n
  {
    var q', r' := v / n, v % n;
    assert q * n + q' * n == (q + q') * n;
    ModUnique(q * n + v, n, q + q', r');
  }

  lemma ModMul(a: nat, h: nat, n: nat)
    requires n > 0
    ensures (a % n) * h % n == a * h % n
  {
    DivMod(a, n);
    ModMulParts(a / n, a % n, h, n);
  }

  lemma DivMod(a: nat, n: nat)
    requires n > 0
    ensures a == (a / n) * n + a % n
  {
  }

  lemma ModMulParts(q: nat, r: nat, h: nat, n: nat)
    requires n > 0
    ensures (q * n + r) * h % n == r * h % n
  {
    Expand(q, n, r, h);
    AddMultiple(r * h, q * h, n);
  }

  lemma VanishesStep(inputs: seq<Input>)
    requires inputs != []
    ensures SumVanishesIn(inputs) <==>
            SumVanishesIn(inputs[..|inputs| - 1]) || (Weights(inputs) > 0 && Weights(inputs) % ORDER == 0)
  {
    hide Weights, ORDER;
    var front := inputs[..|inputs| - 1];
    assert inputs[..|inputs|] == inputs;
    assert forall n | 0 <= n <= |front| :: front[..n] == inputs[..n];
  }

  lemma BadStep(inputs: seq<Input>)
    requires inputs != []
    ensures HasBadKey(inputs) <==> HasBadKey(inputs[..|inputs| - 1]) || inputs[|inputs| - 1].key.BadKey?
  {
    var front, last := inputs[..|inputs| - 1], inputs[|inputs| - 1];
    assert inputs == front + [last];
  }

  /** What collecting and summing the input keys comes to. */
  lemma {:induction false} SumExact(inputs: seq<Input>)
    requires !HasBadKey(inputs)
    ensures CollectKeys(inputs).Ok?
    ensures CollectKeys(inputs).value == [] <==> Weights(inputs) == 0
    ensures CollectKeys(inputs).value == [] ==> !SumVanishesIn(inputs)
    ensures CollectKeys(inputs).value != [] ==>
              var sum := SumKeys(CollectKeys(inputs).value);
              if SumVanishesIn(inputs) then sum == Err(KeySumFailed)
              else sum.Ok? && sum.value == Weights(inputs) % ORDER
  {
    hide ORDER, HasBadKey, SumVanishesIn, SumKeys, CollectKeys, Weights;
    if inputs == [] {
      NothingVanishes(inputs);
    } else {
      var front, last := inputs[..|inputs| - 1], inputs[|inputs| - 1];
      BadStep(inputs);
      VanishesStep(inputs);
      SumExact(front);
      LastInput(inputs);
      if last.key.KeyOf? {
        SumOneMore(CollectKeys(front).value, last.key.key, Weights(front), SumVanishesIn(front));
      }
    }
  }

  lemma LastInput(inputs: seq<Input>)
    requires inputs != [] && CollectKeys(inputs[..|inputs| - 1]).Ok? && !inputs[|inputs| - 1].key.BadKey?
    ensures var front, last := CollectKeys(inputs[..|inputs| - 1]).value, inputs[|inputs| - 1];
            CollectKeys(inputs) == Ok(if last.key.KeyOf? then front + [last.key.key] else front)
    ensures Weights(inputs) == Weights(inputs[..|inputs| - 1]) + Weight(inputs[|inputs| - 1])
  {
  }

  lemma NothingVanishes(inputs: seq<Input>)
    requires inputs == []
    ensures !SumVanishesIn(inputs) && CollectKeys(inputs) == Ok([]) && Weights(inputs) == 0
  {
  }

  /** One more key: the sum fails when it failed before or vanishes now. */
  lemma SumOneMore(keys: seq<Point>, key: Point, weight: nat, failed: bool)
    requires keys == [] ==> weight == 0 && !failed
    requires keys != [] ==> if failed then SumKeys(keys) == Err(KeySumFailed)
                            else SumKeys(keys).Ok? && SumKeys(keys).value == weight % ORDER
    ensures var sum := SumKeys(keys + [key]);
            if failed || (weight + key) % ORDER == 0 then sum == Err(KeySumFailed)
            else sum.Ok? && sum.value == (weight + key) % ORDER
  {
    var all := keys + [key];
    if keys == [] {
      SmallMod(key);
      assert all == [key];
    } else {
      assert all[..|all| - 1] == keys;
      ModAdd(weight, key, ORDER);
    }
    hide ORDER;
  }

  lemma AggregateExact(inputs: seq<Input>, freshKey: Point)
    ensures Aggregate(inputs, freshKey).Ok? <==> KeySum(inputs, freshKey).Some?
    ensures Aggregate(inputs, freshKey).Ok? ==> Aggregate(inputs, freshKey).value == KeySum(inputs, freshKey).value
    ensures Aggregate(inputs, freshKey).Err? ==>
              Aggregate(inputs, freshKey).error == if HasBadKey(inputs) then BadInputKey else KeySumFailed
  {
    hide ORDER, SumKeys, CollectKeys, SumVanishesIn, Weights;
    KeysCollected(inputs);
    if !HasBadKey(inputs) {
      SumExact(inputs);
    }
  }

  lemma LeastFound(inputs: seq<Input>)
    ensures IsLeast(inputs, FindSmallest(CollectOutpoints(inputs)))
  {
    hide FindSmallest, CollectOutpoints, LexLeq;
    var outpoints := CollectOutpoints(inputs);
    SmallestIsLeast(outpoints);
    forall o: Outpoint ensures o in outpoints <==> exists input :: input in inputs && input.outpoint == Some(o) {
      OutpointsCollected(inputs, o);
    }
  }

  lemma LeastUnique(inputs: seq<Input>, a: Option<Outpoint>, b: Option<Outpoint>)
    requires IsLeast(inputs, a) && IsLeast(inputs, b)
    ensures a == b
  {
    hide LexLeq;
    if a.Some? && b.Some? {
      LexTotal(a.value, b.value);
    }
  }

  /** The shared secret is the product of both keys and the input hash modulo the order. */
  lemma SecretExact(point: Point, scalar: Point, inputHash: Option<nat>, secret: Point)
    ensures var product := point * scalar * if inputHash.Some? then inputHash.value else 1;
            SharedSecret(point, scalar, inputHash) == Ok(secret)
            <==> (inputHash.Some? ==> inputHash.value < ORDER) && secret == product % ORDER
  {
    hide ORDER;
    if inputHash.Some? {
      var ecdh, h := point * scalar, inputHash.value;
      ModMul(ecdh, h, ORDER);
      FoldExact(ecdh % ORDER, h, ecdh * h % ORDER, secret);
    }
  }

  /** Two products in turn vanish exactly when the second does. */
  lemma FoldExact(first: nat, h: nat, product: nat, secret: Point)
    requires first < ORDER && first * h % ORDER == product
    ensures secret == product <==> first != 0 && MulTweak(first, h) == Some(secret)
  {
    hide ORDER;
    if first == 0 {
      assert first * h == 0;
      SmallMod(secret);
    }
  }

  lemma OutputKeyExact(oracle: Oracle, secret: Point, spend: Point, k: nat, key: Point)
    ensures OutputKey(oracle, secret, spend, k) == Ok(key) <==> IsTweaked(oracle, secret, spend, k, key)
  {
    hide ORDER;
  }

  // ---------------------------------------------------------------------------------------
  // What the sender creates
  // ---------------------------------------------------------------------------------------

  /** The sender's secret: scan key times key sum times input hash. */
  ghost predicate IsSecret(oracle: Oracle, inputs: seq<Input>, freshKey: Point, scan: Point, least: Option<Outpoint>,
          secret: Point) {
    var a := KeySum(inputs, freshKey);
    && a.Some?
    && if least.None? then secret == scan * a.value * 1 % ORDER
       else
         var h := oracle.inputHash(least.value, a.value);
         h < ORDER && secret == scan * a.value * h % ORDER
  }

  lemma SenderSecretExact(oracle: Oracle, inputs: seq<Input>, freshKey: Point, scan: Point, least: Option<Outpoint>,
          secret: Point)
    requires IsLeast(inputs, least)
    ensures SenderSecret(oracle, inputs, freshKey, scan) == Ok(secret)
        <==> IsSecret(oracle, inputs, freshKey, scan, least, secret)
  {
    hide ORDER, CollectKeys, CollectOutpoints, FindSmallest, KeySum, SharedSecret, IsLeast, SenderKey;
    LeastFound(inputs);
    LeastUnique(inputs, least, FindSmallest(CollectOutpoints(inputs)));
    AggregateExact(inputs, freshKey);
    var a := KeySum(inputs, freshKey);
    if a.Some? {
      SecretExact(scan, a.value, if least.None? then None else Some(oracle.inputHash(least.value, a.value)), secret);
    }
  }

  /** An output is created exactly with the secret of the inputs, the key of its index, the x-only
      form of this key and the amount; there is none when a hash is out of range or a sum or product
      vanishes. */
  lemma CreatedExact(oracle: Oracle, inputs: seq<Input>, freshKey: Point, scan: Point, spend: Point, amount: nat,
          k: nat, least: Option<Outpoint>, o: SilentOutput)
    requires IsLeast(inputs, least)
    ensures Created(oracle, inputs, freshKey, scan, spend, amount, k) == Ok(o) <==>
            && IsSecret(oracle, inputs, freshKey, scan, least, o.sharedSecret)
            && IsTweaked(oracle, o.sharedSecret, spend, k, o.tweakedPubkey)
            && o.scriptKey == XOnly(o.tweakedPubkey) && o.amount == amount
  {
    hide ORDER, SenderSecret, OutputKey, IsSecret, IsTweaked, IsLeast, XOnly;
    SenderSecretExact(oracle, inputs, freshKey, scan, least, o.sharedSecret);
    OutputKeyExact(oracle, o.sharedSecret, spend, k, o.tweakedPubkey);
  }

  /** An output can be created exactly when the input keys are good and no beginning of them
      vanishes, no hash is out of range, and neither the product nor the tweaked sum vanishes. */
  lemma CreatableExact(oracle: Oracle, inputs: seq<Input>, freshKey: Point, scan: Point, spend: Point, amount: nat,
          k: nat, least: Option<Outpoint>)
    requires IsLeast(inputs, least)
    ensures Created(oracle, inputs, freshKey, scan, spend, amount, k).Ok? <==>
            var a := KeySum(inputs, freshKey);
            && a.Some?
            && var h := if least.None? then 1 else oracle.inputHash(least.value, a.value);
            && (least.Some? ==> h < ORDER) && scan * a.value * h % ORDER != 0
            && var t := oracle.secretHash(scan * a.value * h % ORDER, k);
            t < ORDER && (spend + t) % ORDER != 0
  {
    hide ORDER, SenderSecret, OutputKey, IsLeast, XOnly, KeySum;
    var a := KeySum(inputs, freshKey);
    var created := Created(oracle, inputs, freshKey, scan, spend, amount, k);
    if created.Ok? {
      CreatedExact(oracle, inputs, freshKey, scan, spend, amount, k, least, created.value);
    }
    if a.Some? {
      var h := if least.None? then 1 else oracle.inputHash(least.value, a.value);
      var product, t := scan * a.value * h % ORDER, 0;
      if product != 0 && (least.Some? ==> h < ORDER) {
        t := oracle.secretHash(product, k);
        if t < ORDER && (spend + t) % ORDER != 0 {
          var key: Point := (spend + t) % ORDER;
          CreatedExact(oracle, inputs, freshKey, scan, spend, amount, k, least,
                       SilentOutput(XOnly(key), amount, key, product));
        }
      }
    }
  }

  /** Two outputs for one receiver from the same inputs pay to one key exactly when the hashes of
      their indices are equal. */
  lemma DistinctOutputs(oracle: Oracle, inputs: seq<Input>, freshKey: Point, scan: Point, spend: Point, amount1: nat,
          k1: nat, amount2: nat, k2: nat)
    requires Created(oracle, inputs, freshKey, scan, spend, amount1, k1).Ok?
    requires Created(oracle, inputs, freshKey, scan, spend, amount2, k2).Ok?
    ensures var p := Created(oracle, inputs, freshKey, scan, spend, amount1, k1).value;
            var q := Created(oracle, inputs, freshKey, scan, spend, amount2, k2).value;
            && p.sharedSecret == q.sharedSecret
            && (p.tweakedPubkey == q.tweakedPubkey
                <==> oracle.secretHash(p.sharedSecret, k1) == oracle.secretHash(q.sharedSecret, k2))
  {
    hide SenderSecret, OutputKey;
    var p := Created(oracle, inputs, freshKey, scan, spend, amount1, k1).value;
    var q := Created(oracle, inputs, freshKey, scan, spend, amount2, k2).value;
    OutputKeyExact(oracle, p.sharedSecret, spend, k1, p.tweakedPubkey);
    OutputKeyExact(oracle, q.sharedSecret, spend, k2, q.tweakedPubkey);
    SumsApart(spend, oracle.secretHash(p.sharedSecret, k1), oracle.secretHash(q.sharedSecret, k2));
  }

  lemma SumsApart(spend: Point, s: nat, t: nat)
    requires s < ORDER && t < ORDER
    ensures (spend + s) % ORDER == (spend + t) % ORDER <==> s == t
  {
    ReducedSum(spend, s);
    ReducedSum(spend, t);
  }

  lemma ReducedSum(spend: Point, s: nat)
    requires s < ORDER
    ensures (spend + s) % ORDER == if spend + s < ORDER then spend + s else spend + s - ORDER
  {
    if spend + s < ORDER {
      ModUnique(spend + s, ORDER, 0, spend + s);
    } else {
      ModUnique(spend + s, ORDER, 1, spend + s - ORDER);
    }
  }

  // ---------------------------------------------------------------------------------------
  // What the receiver reports and spends
  // ---------------------------------------------------------------------------------------

  /** Output `j` is a taproot output of the key of index `k`. */
  ghost predicate PaysKey(oracle: Oracle, secret: Point, spend: Point, outputs: seq<TxOutput>, k: nat, j: nat,
          key: Point) {
    j < |outputs| && IsTweaked(oracle, secret, spend, k, key) && outputs[j].script == Taproot(XOnly(key))
  }

  ghost predicate HasKey(oracle: Oracle, secret: Point, spend: Point, k: nat) {
    exists key: Point :: IsTweaked(oracle, secret, spend, k, key)
  }

  ghost predicate IsPaid(oracle: Oracle, secret: Point, spend: Point, outputs: seq<TxOutput>, k: nat) {
    exists j: nat, key: Point :: PaysKey(oracle, secret, spend, outputs, k, j, key)
  }

  /** Every index before `k` has a key, and all but the first are paid. */
  ghost predicate PaidUpTo(oracle: Oracle, secret: Point, spend: Point, outputs: seq<TxOutput>, k: nat) {
    forall i: nat | i < k :: HasKey(oracle, secret, spend, i) && (i > 0 ==> IsPaid(oracle, secret, spend, outputs, i))
  }

  lemma KeyExact(oracle: Oracle, secret: Point, spend: Point, k: nat)
    ensures OutputKey(oracle, secret, spend, k).Ok? <==> HasKey(oracle, secret, spend, k)
    ensures OutputKey(oracle, secret, spend, k).Ok? ==>
              forall key: Point :: IsTweaked(oracle, secret, spend, k, key)
                                   <==> key == OutputKey(oracle, secret, spend, k).value
  {
    hide OutputKey, IsTweaked;
    forall key: Point
      ensures OutputKey(oracle, secret, spend, k) == Ok(key) <==> IsTweaked(oracle, secret, spend, k, key)
    {
      OutputKeyExact(oracle, secret, spend, k, key);
    }
    if OutputKey(oracle, secret, spend, k).Ok? {
      var key := OutputKey(oracle, secret, spend, k).value;
      assert IsTweaked(oracle, secret, spend, k, key);
    }
  }

  lemma PaidExact(oracle: Oracle, secret: Point, spend: Point, outputs: seq<TxOutput>, k: nat)
    ensures Hit(oracle, secret, spend, outputs, k) <==> IsPaid(oracle, secret, spend, outputs, k)
  {
    hide OutputKey, IsTweaked, XOnly;
    KeyExact(oracle, secret, spend, k);
    if j: nat :| Pays(oracle, secret, spend, outputs, k, j) {
      assert PaysKey(oracle, secret, spend, outputs, k, j, OutputKey(oracle, secret, spend, k).value);
    }
    if j: nat, key: Point :| PaysKey(oracle, secret, spend, outputs, k, j, key) {
      assert HasKey(oracle, secret, spend, k);
      assert Pays(oracle, secret, spend, outputs, k, j);
    }
  }

  lemma PassesExact(oracle: Oracle, secret: Point, spend: Point, outputs: seq<TxOutput>, k: nat)
    ensures Passes(oracle, secret, spend, outputs, 0, k) <==> PaidUpTo(oracle, secret, spend, outputs, k)
  {
    hide OutputKey, Hit, HasKey, IsPaid;
    forall i: nat | i < k
      ensures OutputKey(oracle, secret, spend, i).Ok? <==> HasKey(oracle, secret, spend, i)
      ensures Hit(oracle, secret, spend, outputs, i) <==> IsPaid(oracle, secret, spend, outputs, i)
    {
      KeyExact(oracle, secret, spend, i);
      PaidExact(oracle, secret, spend, outputs, i);
    }
  }

  /** A successful scan reports an output exactly when it pays the key of one of the first ten
      indices and the scan gets there. */
  lemma ScanReportsExact(oracle: Oracle, secret: Point, spend: Point, outputs: seq<TxOutput>, o: SilentOutput)
    requires ScanFrom(oracle, secret, spend, outputs, 0).Ok?
    ensures o in ScanFrom(oracle, secret, spend, outputs, 0).value <==>
            exists k: nat, j: nat ::
              k < 10 && PaidUpTo(oracle, secret, spend, outputs, k)
              && PaysKey(oracle, secret, spend, outputs, k, j, o.tweakedPubkey)
              && o == SilentOutput(XOnly(o.tweakedPubkey), outputs[j].amount, o.tweakedPubkey, secret)
  {
    hide ScanFrom, OutputKey, IsTweaked, XOnly, Passes, PaidUpTo;
    ScanExact(oracle, secret, spend, outputs, 0, o);
    if k: nat, j: nat :| 0 <= k < SCAN_LIMIT && Passes(oracle, secret, spend, outputs, 0, k)
                         && Pays(oracle, secret, spend, outputs, k, j)
                         && o == Report(oracle, secret, spend, outputs, k, j) {
      PassesExact(oracle, secret, spend, outputs, k);
      OutputKeyExact(oracle, secret, spend, k, o.tweakedPubkey);
      assert PaysKey(oracle, secret, spend, outputs, k, j, o.tweakedPubkey);
    }
    if k: nat, j: nat :| k < 10 && PaidUpTo(oracle, secret, spend, outputs, k)
                         && PaysKey(oracle, secret, spend, outputs, k, j, o.tweakedPubkey)
                         && o == SilentOutput(XOnly(o.tweakedPubkey), outputs[j].amount, o.tweakedPubkey, secret) {
      PassesExact(oracle, secret, spend, outputs, k);
      OutputKeyExact(oracle, secret, spend, k, o.tweakedPubkey);
      assert o == Report(oracle, secret, spend, outputs, k, j);
      assert Reportable(oracle, secret, spend, outputs, 0, o);
    }
  }

  /** The spending key is the spend key plus the hash, or its opposite when the point of the sum has
      an odd y coordinate. */
  lemma SpendingKeyExact(oracle: Oracle, spendKey: Point, secret: Point, k: nat, key: Point)
    ensures DeriveSpendingPrivkey(oracle, spendKey, secret, k) == Ok(key) <==>
            exists sum: Point :: IsTweaked(oracle, secret, spendKey, k, sum)
                                 && key == if oracle.odd(sum) then ORDER - sum else sum
  {
    hide OutputKey, IsTweaked;
    KeyExact(oracle, secret, spendKey, k);
    if OutputKey(oracle, secret, spendKey, k).Ok? {
      var sum := OutputKey(oracle, secret, spendKey, k).value;
      assert IsTweaked(oracle, secret, spendKey, k, sum);
    } else {
      assert !HasKey(oracle, secret, spendKey, k);
    }
  }
}
