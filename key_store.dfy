/**
  The per-request key-corroboration store, as this model assumes it to be.
  Its implementation is not part of this model; only the three operations
  the sentinel uses are given, with one concrete policy: every vouch
  "voucher says owner has key" is kept (re-vouching a different key for the
  same owner accumulates rather than overwrites), and a key is exposed for
  an owner once at least `threshold` distinct vouchers (and at least one)
  have vouched for it. A name's vouch for its own key counts toward the
  threshold like any other.
 */
module KeyStore {

  datatype Vouch<Name, Key> = Vouch(owner: Name, voucher: Name, key: Key)

  datatype Store<Name(==), Key(==)> = Store(threshold: nat, vouches: set<Vouch<Name, Key>>)

  /** An empty store requiring `threshold` distinct vouchers per exposed key. */
  function New<Name(==), Key(==)>(threshold: nat): (ks: Store<Name, Key>)
    ensures ks.threshold == threshold
  {
    Store(threshold, {})
  }

  /** Records that `voucher` vouches that `owner` owns `key`. */
  function AddKey<Name(==), Key(==)>(ks: Store<Name, Key>, owner: Name, voucher: Name, key: Key): (r: Store<Name, Key>)
    ensures r.threshold == ks.threshold
    ensures r.vouches == ks.vouches + {Vouch(owner, voucher, key)}
    ensures voucher in Vouchers(r, owner, key)
  {
    ks.(vouches := ks.vouches + {Vouch(owner, voucher, key)})
  }

  /** The distinct names that have vouched that `owner` owns `key`. */
  function Vouchers<Name(==), Key(==)>(ks: Store<Name, Key>, owner: Name, key: Key): set<Name> {
    set v | v in ks.vouches && v.owner == owner && v.key == key :: v.voucher
  }

  /** The keys of `owner` vouched for by at least `threshold` distinct names. */
  function AccumulatedKeys<Name(==), Key(==)>(ks: Store<Name, Key>, owner: Name): set<Key> {
    set v | v in ks.vouches && v.owner == owner && |Vouchers(ks, owner, v.key)| >= ks.threshold :: v.key
  }

  /** A fresh store exposes no key for anyone. */
  lemma NewExposesNothing<Name, Key>(threshold: nat, owner: Name)
    ensures AccumulatedKeys(New<Name, Key>(threshold), owner) == {}
  {
  }

  /** Exactly the keys with enough distinct vouchers are exposed. */
  lemma AccumulatedKeysExactly<Name, Key>(ks: Store<Name, Key>, owner: Name, key: Key)
    ensures key in AccumulatedKeys(ks, owner) <==>
              Vouchers(ks, owner, key) != {} && |Vouchers(ks, owner, key)| >= ks.threshold
  {
    if key in AccumulatedKeys(ks, owner) {
      var v :| v in ks.vouches && v.owner == owner && v.key == key
               && |Vouchers(ks, owner, v.key)| >= ks.threshold;
      assert v.voucher in Vouchers(ks, owner, key);
    }
    if Vouchers(ks, owner, key) != {} && |Vouchers(ks, owner, key)| >= ks.threshold {
      var n :| n in Vouchers(ks, owner, key);
      var v :| v in ks.vouches && v.owner == owner && v.key == key && v.voucher == n;
      assert v.key in AccumulatedKeys(ks, owner);
    }
  }

  /** More vouches never hide a key that was already exposed. */
  lemma AccumulatedKeysMonotone<Name, Key>(ks: Store<Name, Key>, ks': Store<Name, Key>, owner: Name)
    requires ks'.threshold == ks.threshold && ks.vouches <= ks'.vouches
    ensures AccumulatedKeys(ks, owner) <= AccumulatedKeys(ks', owner)
  {
    forall key | key in AccumulatedKeys(ks, owner) ensures key in AccumulatedKeys(ks', owner) {
      AccumulatedKeysExactly(ks, owner, key);
      var before, after := Vouchers(ks, owner, key), Vouchers(ks', owner, key);
      assert after == before + (after - before);
      AccumulatedKeysExactly(ks', owner, key);
    }
  }
}
