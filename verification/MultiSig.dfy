/** vm/func_crypto.go and crypto/crypto.go: two ways to check m signatures against n keys. */
module MultiSig {
  import opened Words

  /** Whether a signature of the message checks out under a key. */
  type Verifies = (Bytes, Bytes) -> bool

  // ---------------------------------------------------------------- CHECKMULTISIG of the virtual machine

  /** Signature i goes to key f[i], the keys in order. */
  predicate InOrder(ok: Verifies, sigs: seq<Bytes>, keys: seq<Bytes>, f: seq<nat>) {
    && |f| == |sigs|
    && (forall i :: 0 <= i < |f| ==> f[i] < |keys| && ok(sigs[i], keys[f[i]]))
    && (forall i, j :: 0 <= i < j < |f| ==> f[i] < f[j])
  }

  ghost predicate CanOrder(ok: Verifies, sigs: seq<Bytes>, keys: seq<Bytes>) {
    exists f :: InOrder(ok, sigs, keys, f)
  }

  lemma {:induction false} Increasing(f: seq<nat>, i: nat)
    requires i < |f| && forall a, b :: 0 <= a < b < |f| ==> f[a] < f[b]
    ensures f[i] >= i
  {
    if i > 0 { Increasing(f, i - 1); }
  }

  lemma TooMany(ok: Verifies, sigs: seq<Bytes>, keys: seq<Bytes>)
    requires |sigs| > |keys|
    ensures !CanOrder(ok, sigs, keys)
  {
    forall f | InOrder(ok, sigs, keys, f) ensures false {
      Increasing(f, |f| - 1);
    }
  }

  lemma NothingToOrder(ok: Verifies, keys: seq<Bytes>)
    ensures CanOrder(ok, [], keys)
  {
    assert InOrder(ok, [], keys, []);
  }

  /** The first key goes to the first signature if it can. */
  lemma TakeFirst(ok: Verifies, sigs: seq<Bytes>, keys: seq<Bytes>)
    requires |sigs| > 0 && |keys| > 0 && ok(sigs[0], keys[0])
    ensures CanOrder(ok, sigs, keys) <==> CanOrder(ok, sigs[1..], keys[1..])
  {
    hide InOrder;
    if CanOrder(ok, sigs, keys) {
      var f :| InOrder(ok, sigs, keys, f);
      DropFirst(ok, sigs, keys, f);
    }
    if CanOrder(ok, sigs[1..], keys[1..]) {
      var g :| InOrder(ok, sigs[1..], keys[1..], g);
      PutFirst(ok, sigs, keys, g);
    }
  }

  lemma DropFirst(ok: Verifies, sigs: seq<Bytes>, keys: seq<Bytes>, f: seq<nat>)
    requires |sigs| > 0 && |keys| > 0 && InOrder(ok, sigs, keys, f)
    ensures CanOrder(ok, sigs[1..], keys[1..])
  {
    var g := seq(|f| - 1, i requires 0 <= i < |f| - 1 => if f[i + 1] > 0 then f[i + 1] - 1 else 0);
    forall i | 0 <= i < |g|
      ensures g[i] + 1 == f[i + 1] && g[i] < |keys[1..]| && ok(sigs[1..][i], keys[1..][g[i]])
    {
      assert f[0] < f[i + 1];
    }
    assert InOrder(ok, sigs[1..], keys[1..], g);
  }

  lemma PutFirst(ok: Verifies, sigs: seq<Bytes>, keys: seq<Bytes>, g: seq<nat>)
    requires |sigs| > 0 && |keys| > 0 && ok(sigs[0], keys[0]) && InOrder(ok, sigs[1..], keys[1..], g)
    ensures CanOrder(ok, sigs, keys)
  {
    var f := [0] + seq(|g|, i requires 0 <= i < |g| => g[i] + 1);
    forall i | 0 <= i < |f| ensures f[i] < |keys| && ok(sigs[i], keys[f[i]]) {
      if i > 0 { assert sigs[1..][i - 1] == sigs[i] && keys[1..][g[i - 1]] == keys[f[i]]; }
    }
    assert InOrder(ok, sigs, keys, f);
  }

  lemma SkipFirst(ok: Verifies, sigs: seq<Bytes>, keys: seq<Bytes>)
    requires |sigs| > 0 && |keys| > 0 && !ok(sigs[0], keys[0])
    ensures CanOrder(ok, sigs, keys) <==> CanOrder(ok, sigs, keys[1..])
  {
    if CanOrder(ok, sigs, keys) {
      var f :| InOrder(ok, sigs, keys, f);
      var g := seq(|f|, i requires 0 <= i < |f| => if f[i] > 0 then f[i] - 1 else 0);
      forall i | 0 <= i < |f| ensures f[i] > 0 {
        assert f[0] != 0;
      }
      assert InOrder(ok, sigs, keys[1..], g);
    }
    if CanOrder(ok, sigs, keys[1..]) {
      var g :| InOrder(ok, sigs, keys[1..], g);
      var f := seq(|g|, i requires 0 <= i < |g| => g[i] + 1);
      assert InOrder(ok, sigs, keys, f);
    }
  }

  /** The loop answers yes exactly when the signatures have keys in the same order. */
  method CheckMultiSig(ok: Verifies, signatures: seq<Bytes>, pubkeys: seq<Bytes>) returns (success: bool)
    requires 1 <= |signatures| <= |pubkeys|
    ensures success <==> CanOrder(ok, signatures, pubkeys)
  {
    hide CanOrder;
    var m, n := |signatures|, |pubkeys|;
    success := true;
    var i, j := 0, 0;
    assert signatures[0..] == signatures && pubkeys[0..] == pubkeys;
    while success && i < m && j < n
      invariant 0 <= i <= m && 0 <= j <= n
      invariant success ==> m - i <= n - j
      invariant success ==> (CanOrder(ok, signatures, pubkeys) <==> CanOrder(ok, signatures[i..], pubkeys[j..]))
      invariant !success ==> !CanOrder(ok, signatures, pubkeys)
      decreases n - j
    {
      assert signatures[i..][1..] == signatures[i + 1..] && pubkeys[j..][1..] == pubkeys[j + 1..];
      var ver := ok(signatures[i], pubkeys[j]);
      if ver {
        TakeFirst(ok, signatures[i..], pubkeys[j..]);
        i := i + 1;
      } else {
        SkipFirst(ok, signatures[i..], pubkeys[j..]);
      }
      j := j + 1;
      if m - i > n - j {
        TooMany(ok, signatures[i..], pubkeys[j..]);
        success := false;
      }
    }
    if success {
      assert signatures[i..] == [];
      NothingToOrder(ok, pubkeys[j..]);
    }
  }

  // ---------------------------------------------------------------- VerifyMultiSignature

  /** Signature i goes to key g[i], no key used twice or masked. */
  predicate Assigned(ok: Verifies, sigs: seq<Bytes>, keys: seq<Bytes>, mask: seq<bool>, g: seq<nat>)
    requires |mask| == |keys|
  {
    && |g| == |sigs|
    && (forall i :: 0 <= i < |g| ==> g[i] < |keys| && !mask[g[i]] && ok(sigs[i], keys[g[i]]))
    && (forall i, j :: 0 <= i < j < |g| ==> g[i] != g[j])
  }

  ghost predicate CanAssign(ok: Verifies, sigs: seq<Bytes>, keys: seq<Bytes>, mask: seq<bool>)
    requires |mask| == |keys|
  {
    exists g :: Assigned(ok, sigs, keys, mask, g)
  }

  predicate Free(ok: Verifies, s: Bytes, keys: seq<Bytes>, mask: seq<bool>, j: nat)
    requires |mask| == |keys|
  {
    j < |keys| && !mask[j] && ok(s, keys[j])
  }

  function FirstFree(ok: Verifies, s: Bytes, keys: seq<Bytes>, mask: seq<bool>, from: nat): (j: nat)
    requires |mask| == |keys| && from <= |keys|
    ensures from <= j <= |keys| && (j < |keys| ==> Free(ok, s, keys, mask, j))
    ensures forall k :: from <= k < j ==> !Free(ok, s, keys, mask, k)
    decreases |keys| - from
  {
    if from == |keys| || Free(ok, s, keys, mask, from) then from else FirstFree(ok, s, keys, mask, from + 1)
  }

  /** Each signature takes the first key that is left and fits. */
  predicate Accepts(ok: Verifies, sigs: seq<Bytes>, keys: seq<Bytes>, mask: seq<bool>)
    requires |mask| == |keys|
    decreases |sigs|
  {
    sigs == [] ||
    var j := FirstFree(ok, sigs[0], keys, mask, 0);
    j < |keys| && Accepts(ok, sigs[1..], keys, mask[j := true])
  }

  function NoMask(n: nat): (mask: seq<bool>)
    ensures |mask| == n && forall i :: 0 <= i < n ==> !mask[i]
  {
    seq(n, _ => false)
  }

  method VerifyMultiSignature(ok: Verifies, pubKeys: seq<Bytes>, m: int, sigs: seq<Bytes>) returns (accepted: bool)
    ensures accepted <==>
      m <= |sigs| && Accepts(ok, sigs[..if m < 0 then 0 else m], pubKeys, NoMask(|pubKeys|))
  {
    var n := |pubKeys|;
    if |sigs| < m { return false; }
    var mask := NoMask(n);
    ghost var used := sigs[..if m < 0 then 0 else m];
    var i := 0;
    while i < m
      invariant 0 <= i <= |used| && |mask| == n && (m >= 0 ==> i <= m)
      invariant Accepts(ok, used[i..], pubKeys, mask) <==> Accepts(ok, used, pubKeys, NoMask(n))
    {
      var valid := false;
      var j := 0;
      while j < n
        invariant 0 <= j <= n
        invariant FirstFree(ok, sigs[i], pubKeys, mask, 0) == FirstFree(ok, sigs[i], pubKeys, mask, j)
      {
        if !mask[j] && ok(sigs[i], pubKeys[j]) {
          valid := true;
          break;
        }
        j := j + 1;
      }
      assert FirstFree(ok, sigs[i], pubKeys, mask, 0) == j;
      assert used[i..][0] == sigs[i] && used[i..][1..] == used[i + 1..];
      if !valid { return false; }
      mask := mask[j := true];
      i := i + 1;
    }
    return true;
  }

  lemma {:induction false} AcceptsSound(ok: Verifies, sigs: seq<Bytes>, keys: seq<Bytes>, mask: seq<bool>)
    requires |mask| == |keys| && Accepts(ok, sigs, keys, mask)
    ensures CanAssign(ok, sigs, keys, mask)
    decreases |sigs|
  {
    if sigs == [] {
      assert Assigned(ok, sigs, keys, mask, []);
    } else {
      var j := FirstFree(ok, sigs[0], keys, mask, 0);
      AcceptsSound(ok, sigs[1..], keys, mask[j := true]);
      var g :| Assigned(ok, sigs[1..], keys, mask[j := true], g);
      var f := [j] + g;
      forall i | 0 <= i < |f| ensures f[i] < |keys| && !mask[f[i]] && ok(sigs[i], keys[f[i]]) && (i > 0 ==> f[i] != j) {
        if i > 0 { assert f[i] == g[i - 1] && sigs[1..][i - 1] == sigs[i] && !mask[j := true][g[i - 1]]; }
      }
      assert Assigned(ok, sigs, keys, mask, f);
    }
  }

  /** Listed signatures that share a listed key share all of them. */
  predicate Uniform(ok: Verifies, sigs: seq<Bytes>, keys: seq<Bytes>) {
    forall s, t, a, b :: s in sigs && t in sigs && a in keys && b in keys && ok(s, a) && ok(t, a) && ok(s, b) ==>
      ok(t, b)
  }

  /** The key the greedy choice takes can be spared. */
  lemma Exchange(ok: Verifies, sigs: seq<Bytes>, keys: seq<Bytes>, mask: seq<bool>, g: seq<nat>, j: nat)
    requires |mask| == |keys| && |sigs| > 0 && Uniform(ok, sigs, keys)
    requires Assigned(ok, sigs, keys, mask, g) && Free(ok, sigs[0], keys, mask, j)
    ensures CanAssign(ok, sigs[1..], keys, mask[j := true])
  {
    var h := seq(|g| - 1, i requires 0 <= i < |g| - 1 => if g[i + 1] == j then g[0] else g[i + 1]);
    forall i | 0 <= i < |h|
      ensures h[i] < |keys| && !mask[j := true][h[i]] && ok(sigs[1..][i], keys[h[i]])
    {
      assert sigs[1..][i] == sigs[i + 1];
      assert g[0] != g[i + 1];
      if g[i + 1] == j { Shared(ok, sigs, keys, i + 1, j, g[0]); }
    }
    assert Assigned(ok, sigs[1..], keys, mask[j := true], h);
  }

  lemma Shared(ok: Verifies, sigs: seq<Bytes>, keys: seq<Bytes>, i: nat, a: nat, b: nat)
    requires Uniform(ok, sigs, keys) && 0 < i < |sigs| && a < |keys| && b < |keys|
    requires ok(sigs[0], keys[a]) && ok(sigs[i], keys[a]) && ok(sigs[0], keys[b])
    ensures ok(sigs[i], keys[b])
  {
  }

  lemma {:induction false} AcceptsComplete(ok: Verifies, sigs: seq<Bytes>, keys: seq<Bytes>, mask: seq<bool>)
    requires |mask| == |keys| && Uniform(ok, sigs, keys) && CanAssign(ok, sigs, keys, mask)
    ensures Accepts(ok, sigs, keys, mask)
    decreases |sigs|
  {
    hide Uniform;
    if sigs != [] {
      var g :| Assigned(ok, sigs, keys, mask, g);
      assert Free(ok, sigs[0], keys, mask, g[0]);
      var j := FirstFree(ok, sigs[0], keys, mask, 0);
      Exchange(ok, sigs, keys, mask, g, j);
      UniformFewer(ok, sigs, keys, sigs[1..], keys);
      AcceptsComplete(ok, sigs[1..], keys, mask[j := true]);
    }
  }

  /** Drawn from a list, in any order and with repetitions. */
  predicate Drawn(some: seq<Bytes>, list: seq<Bytes>) {
    forall x :: x in some ==> x in list
  }

  lemma UniformFewer(ok: Verifies, sigs: seq<Bytes>, keys: seq<Bytes>, ss: seq<Bytes>, ks: seq<Bytes>)
    requires Uniform(ok, sigs, keys) && Drawn(ss, sigs) && Drawn(ks, keys)
    ensures Uniform(ok, ss, ks)
  {
  }

  /** Acceptance means assignability. */
  ghost predicate Exact(ok: Verifies, sigs: seq<Bytes>, keys: seq<Bytes>) {
    Accepts(ok, sigs, keys, NoMask(|keys|)) <==> CanAssign(ok, sigs, keys, NoMask(|keys|))
  }

  /** One call, on what it was given. */
  lemma UniformExact(ok: Verifies, sigs: seq<Bytes>, keys: seq<Bytes>)
    requires Uniform(ok, sigs, keys)
    ensures Exact(ok, sigs, keys)
  {
    hide Uniform, Accepts, CanAssign;
    if Accepts(ok, sigs, keys, NoMask(|keys|)) { AcceptsSound(ok, sigs, keys, NoMask(|keys|)); }
    if CanAssign(ok, sigs, keys, NoMask(|keys|)) { AcceptsComplete(ok, sigs, keys, NoMask(|keys|)); }
  }

  /** The ordinary case: no listed signature is good under two different listed keys. */
  lemma OneKeyExact(ok: Verifies, sigs: seq<Bytes>, keys: seq<Bytes>)
    requires forall s, a, b :: s in sigs && a in keys && b in keys && ok(s, a) && ok(s, b) ==> a == b
    ensures Exact(ok, sigs, keys)
  {
    hide Accepts, CanAssign;
    assert Uniform(ok, sigs, keys);
    UniformExact(ok, sigs, keys);
  }

  /** Every call with signatures and keys drawn from the listed ones is exact if and only if the
      listed ones are uniform: a signature good under two keys, one of them good for a second
      signature too, can take the only key of that second one. */
  lemma ExactIffUniform(ok: Verifies, sigs: seq<Bytes>, keys: seq<Bytes>)
    ensures (forall ss, ks :: Drawn(ss, sigs) && Drawn(ks, keys) ==> Exact(ok, ss, ks)) <==> Uniform(ok, sigs, keys)
  {
    hide Accepts, CanAssign;
    if Uniform(ok, sigs, keys) {
      forall ss, ks | Drawn(ss, sigs) && Drawn(ks, keys) ensures Exact(ok, ss, ks) {
        UniformFewer(ok, sigs, keys, ss, ks);
        UniformExact(ok, ss, ks);
      }
    } else {
      var s, t, a, b :|
        s in sigs && t in sigs && a in keys && b in keys && ok(s, a) && ok(t, a) && ok(s, b) && !ok(t, b);
      Refused(ok, s, t, a, b);
      assert Drawn([s, t], sigs) && Drawn([a, b], keys) && !Exact(ok, [s, t], [a, b]);
    }
  }

  lemma Refused(ok: Verifies, s: Bytes, t: Bytes, a: Bytes, b: Bytes)
    requires ok(s, a) && ok(t, a) && ok(s, b) && !ok(t, b)
    ensures CanAssign(ok, [s, t], [a, b], NoMask(2)) && !Accepts(ok, [s, t], [a, b], NoMask(2))
  {
    assert Assigned(ok, [s, t], [a, b], NoMask(2), [1, 0]);
    assert Free(ok, s, [a, b], NoMask(2), 0);
    assert FirstFree(ok, s, [a, b], NoMask(2), 0) == 0;
    var mask := NoMask(2)[0 := true];
    assert !Free(ok, t, [a, b], mask, 0) && !Free(ok, t, [a, b], mask, 1);
    assert FirstFree(ok, t, [a, b], mask, 0) == 2;
    assert [s, t][1..] == [t];
  }
}
