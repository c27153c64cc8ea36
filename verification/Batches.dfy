/** Batch registrations and deregistrations, and the counting check that admits a batch. */
module Batches {
  import opened Primitives
  import opened MemoryDb

  datatype RegistrationBatch = RegistrationBatch(
    validatorPubkeys: seq<BlsPublicKey>,
    operator: Address,
    gasLimit: u64,
    expiry: u64,
    signatures: seq<BlsSignature>)

  datatype DeregistrationBatch = DeregistrationBatch(
    validatorPubkeys: seq<BlsPublicKey>,
    operator: Address,
    signatures: seq<BlsSignature>)

  function Min(a: nat, b: nat): nat {
    if a <= b then a else b
  }

  /** `into_iter().zip(..)`: pairs up to the shorter length. */
  function Zip<A, B>(xs: seq<A>, ys: seq<B>): (r: seq<(A, B)>)
    ensures |r| == Min(|xs|, |ys|)
    ensures forall i :: 0 <= i < |r| ==> r[i] == (xs[i], ys[i])
  {
    if xs == [] || ys == [] then [] else [(xs[0], ys[0])] + Zip(xs[1..], ys[1..])
  }

  /** The registration for one key and signature of the batch, if the key has an index. */
  function Item(batch: RegistrationBatch, indexMap: map<BlsPublicKey, u64>, pair: (BlsPublicKey, BlsSignature))
    : Option<Registration>
  {
    if pair.0 in indexMap
    then Some(Registration(pair.0, indexMap[pair.0], batch.operator, batch.gasLimit, batch.expiry, Some(pair.1)))
    else None
  }

  function IntoItems(batch: RegistrationBatch, indexMap: map<BlsPublicKey, u64>): seq<Registration> {
    FilterMap(pair => Item(batch, indexMap, pair), Zip(batch.validatorPubkeys, batch.signatures))
  }

  function DeregistrationItems(batch: DeregistrationBatch): (r: seq<Deregistration>)
    ensures |r| == Min(|batch.validatorPubkeys|, |batch.signatures|)
    ensures forall i :: 0 <= i < |r| ==>
              r[i] == Deregistration(batch.validatorPubkeys[i], batch.operator, batch.signatures[i])
  {
    var pairs := Zip(batch.validatorPubkeys, batch.signatures);
    seq(|pairs|, i requires 0 <= i < |pairs| => Deregistration(pairs[i].0, batch.operator, pairs[i].1))
  }

  /** `collect::<HashMap<_, _>>()` over the beacon node's answer; a later summary of a key wins. */
  function IndexMap(validators: seq<ValidatorSummary>): (m: map<BlsPublicKey, u64>)
    ensures forall k :: k in m <==> Reported(validators, k)
    ensures forall k :: k in m ==> ValidatorSummary(k, m[k]) in validators
  {
    if validators == [] then map[]
    else
      var n := |validators| - 1;
      assert forall v :: v in validators <==> v in validators[..n] || v == validators[n];
      IndexMap(validators[..n])[validators[n].publicKey := validators[n].index]
  }

  /** No later summary is about the same key. */
  ghost predicate IsLastSummary(validators: seq<ValidatorSummary>, i: nat)
    requires i < |validators|
  {
    forall j :: i < j < |validators| ==> validators[j].publicKey != validators[i].publicKey
  }

  lemma IndexMapGrows(front: seq<ValidatorSummary>, v: ValidatorSummary)
    ensures IndexMap(front + [v]) == IndexMap(front)[v.publicKey := v.index]
  {
    assert (front + [v])[..|front|] == front;
  }

  /** Of several summaries of a key, the last one counts. */
  lemma {:induction false} LastSummaryWins(validators: seq<ValidatorSummary>, i: nat)
    requires i < |validators| && IsLastSummary(validators, i)
    ensures validators[i].publicKey in IndexMap(validators)
    ensures IndexMap(validators)[validators[i].publicKey] == validators[i].index
  {
    var front, v := validators[..|validators| - 1], validators[|validators| - 1];
    IndexMapGrows(front, v);
    assert validators == front + [v];
    if i < |front| {
      assert forall j :: i < j < |front| ==> front[j] == validators[j];
      LastSummaryWins(front, i);
    }
  }

  predicate Reported(validators: seq<ValidatorSummary>, k: BlsPublicKey) {
    exists v :: v in validators && v.publicKey == k
  }

  // ---------- The pigeonhole argument ----------

  ghost function KeySet(keys: seq<BlsPublicKey>): set<BlsPublicKey> {
    set i | 0 <= i < |keys| :: keys[i]
  }

  ghost predicate NoDuplicates<T>(xs: seq<T>) {
    forall i, j :: 0 <= i < j < |xs| ==> xs[i] != xs[j]
  }

  lemma KeySetAppend(keys: seq<BlsPublicKey>, k: BlsPublicKey)
    ensures KeySet(keys + [k]) == KeySet(keys) + {k}
  {
    var all := keys + [k];
    assert all[|keys|] == k && forall i :: 0 <= i < |keys| ==> all[i] == keys[i];
  }

  lemma {:induction false} KeySetSize(keys: seq<BlsPublicKey>)
    ensures |KeySet(keys)| <= |keys|
    ensures |KeySet(keys)| == |keys| <==> NoDuplicates(keys)
  {
    if keys != [] {
      var n := |keys| - 1;
      var front := keys[..n];
      assert keys == front + [keys[n]];
      KeySetSize(front);
      KeySetAppend(front, keys[n]);
      if keys[n] in KeySet(front) {
        assert KeySet(keys) == KeySet(front);
        var i :| 0 <= i < n && front[i] == keys[n];
        assert keys[i] == keys[n];
      } else {
        assert NoDuplicates(keys) <==> NoDuplicates(front) by {
          assert forall i :: 0 <= i < n ==> keys[i] == front[i] != keys[n];
        }
      }
    }
  }

  /** The beacon node answers only about the keys it was asked about. */
  ghost predicate OnlyRequested(validators: seq<ValidatorSummary>, keys: seq<BlsPublicKey>) {
    forall k :: Reported(validators, k) ==> k in KeySet(keys)
  }

  /** Comparing two counts admits a batch exactly when its keys are pairwise distinct and all of
      them are active. A batch naming a validator twice is rejected even if it is active. */
  lemma AdmittedIff(keys: seq<BlsPublicKey>, validators: seq<ValidatorSummary>)
    requires OnlyRequested(validators, keys)
    ensures |IndexMap(validators)| == |keys| <==>
            NoDuplicates(keys) && forall i :: 0 <= i < |keys| ==> Reported(validators, keys[i])
  {
    var m := IndexMap(validators);
    assert m.Keys <= KeySet(keys);
    assert |m| == |m.Keys|;
    KeySetSize(keys);
    if m.Keys == KeySet(keys) {
      forall i | 0 <= i < |keys| ensures Reported(validators, keys[i]) {
        assert keys[i] in m;
      }
    } else {
      assert m.Keys < KeySet(keys);
      assert |KeySet(keys) - m.Keys| > 0;
      var k :| k in KeySet(keys) && k !in m;
      assert !Reported(validators, k);
    }
  }

  /** Nothing of an admitted batch is dropped by the index lookup: it yields, in order, one
      registration for each of the first `min(#keys, #signatures)` keys, with the index reported
      for that key. */
  lemma AdmittedItems(batch: RegistrationBatch, validators: seq<ValidatorSummary>)
    requires OnlyRequested(validators, batch.validatorPubkeys)
    requires |IndexMap(validators)| == |batch.validatorPubkeys|
    ensures var items := IntoItems(batch, IndexMap(validators));
            && |items| == Min(|batch.validatorPubkeys|, |batch.signatures|)
            && (forall i :: 0 <= i < |items| ==>
                  && items[i].validatorPubkey == batch.validatorPubkeys[i]
                  && ValidatorSummary(items[i].validatorPubkey, items[i].validatorIndex) in validators
                  && items[i].signature == Some(batch.signatures[i])
                  && items[i].operator == batch.operator
                  && items[i].gasLimit == batch.gasLimit && items[i].expiry == batch.expiry)
            && (forall i, j :: 0 <= i < j < |items| ==> items[i].validatorPubkey != items[j].validatorPubkey)
  {
    var m, pairs := IndexMap(validators), Zip(batch.validatorPubkeys, batch.signatures);
    AdmittedIff(batch.validatorPubkeys, validators);
    forall i | 0 <= i < |pairs| ensures Item(batch, m, pairs[i]).Some? {
      assert Reported(validators, batch.validatorPubkeys[i]);
    }
    FilterMapKeepsAll(pair => Item(batch, m, pair), pairs);
  }

  lemma {:induction false} FilterMapKeepsAll<A, B(!new)>(f: A -> Option<B>, xs: seq<A>)
    requires forall i :: 0 <= i < |xs| ==> f(xs[i]).Some?
    ensures |FilterMap(f, xs)| == |xs|
    ensures forall i :: 0 <= i < |xs| ==> FilterMap(f, xs)[i] == f(xs[i]).value
  {
    if xs != [] {
      FilterMapKeepsAll(f, xs[..|xs| - 1]);
    }
  }
}
