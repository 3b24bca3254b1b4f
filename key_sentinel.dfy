/**
  The key sentinel: a quorum-based accumulator of group claims.

  For every pending request it keeps a key-corroboration store and, per
  sender, the set of group claims that sender submitted. Each submission
  registers the claim's identities as vouches of the sender, records the
  claim, and then tries to select a group. Each sender contributes at most
  one claim: the least of its claims, in the claims' order, that verifies
  against a key the store has accumulated for the sender. A request resolves
  once the contributed claims form at least `claimThreshold` distinct claims.
 */
module Sentinel {
  import opened Ordering
  import KeyStore
  import LruCache

  /** The number of pending requests the cache holds at most. */
  const MaxRequestCount: nat := 1000

  datatype Option<T> = None | Some(value: T)

  /** The operations the sentinel needs of identities (their name and public
      key) and of group claims (their identities, signature check against a
      key, and their total order). */
  datatype Ops<Name, !Id, !Claim, !Key> = Ops(
    name: Id -> Name,
    publicKey: Id -> Key,
    groupIdentities: Claim -> seq<Id>,
    verifyPublicKey: (Claim, Key) -> bool,
    claimLe: (Claim, Claim) -> bool)

  /** What the sentinel keeps for one pending request. */
  datatype Entry<Name(==), Claim(==), Key(==)> =
    Entry(keys: KeyStore.Store<Name, Key>, claims: map<Name, set<Claim>>)

  /** The entry a request starts with. */
  function NewEntry<Name(==), Claim(==), Key(==)>(keysThreshold: nat): (e: Entry<Name, Claim, Key>)
    ensures e.keys.threshold == keysThreshold && e.claims == map[]
  {
    Entry(KeyStore.New(keysThreshold), map[])
  }

  /** The claims `sender` has submitted so far (none when it has no entry). */
  function ClaimsOf<Name(==), Claim>(claims: map<Name, set<Claim>>, sender: Name): set<Claim> {
    if sender in claims then claims[sender] else {}
  }

  /** Every claim submitted by anyone. */
  ghost function AllClaims<Name, Claim>(claims: map<Name, set<Claim>>): set<Claim> {
    set n, c | n in claims && c in claims[n] :: c
  }

  // ---------------------------------------------------------------------
  // Registering a claim's identities

  /** The vouches "sender says id.name owns id.publicKey" for the given identities. */
  ghost function VouchesOf<Name, Id, Claim, Key>(sender: Name, ids: seq<Id>, ops: Ops<Name, Id, Claim, Key>): set<KeyStore.Vouch<Name, Key>> {
    set id | id in ids :: KeyStore.Vouch(ops.name(id), sender, ops.publicKey(id))
  }

  /** Adds the key of each identity, in order, as vouched for by `sender`. */
  function RegisterIdentities<Name(==), Id(==), Claim, Key(==)>(
    ks: KeyStore.Store<Name, Key>, sender: Name, ids: seq<Id>, ops: Ops<Name, Id, Claim, Key>): (r: KeyStore.Store<Name, Key>)
    ensures r.threshold == ks.threshold
    ensures r.vouches == ks.vouches + VouchesOf(sender, ids, ops)
    decreases |ids|
  {
    if ids == [] then ks
    else
      var r := RegisterIdentities(KeyStore.AddKey(ks, ops.name(ids[0]), sender, ops.publicKey(ids[0])), sender, ids[1..], ops);
      assert VouchesOf(sender, ids, ops)
          == {KeyStore.Vouch(ops.name(ids[0]), sender, ops.publicKey(ids[0]))} + VouchesOf(sender, ids[1..], ops) by {
        assert ids == [ids[0]] + ids[1..];
      }
      r
  }

  /** One submission's effect on the request's entry: the identities are
      registered, then the claim joins the sender's set. */
  function RecordClaim<Name(==), Id(==), Claim(==), Key(==)>(
    e: Entry<Name, Claim, Key>, sender: Name, claim: Claim, ops: Ops<Name, Id, Claim, Key>): (r: Entry<Name, Claim, Key>)
    ensures r.keys.threshold == e.keys.threshold
    ensures r.keys.vouches == e.keys.vouches + VouchesOf(sender, ops.groupIdentities(claim), ops)
    ensures r.claims.Keys == e.claims.Keys + {sender}
    ensures r.claims[sender] == ClaimsOf(e.claims, sender) + {claim}
    ensures forall n :: n in e.claims && n != sender ==> r.claims[n] == e.claims[n]
  {
    Entry(RegisterIdentities(e.keys, sender, ops.groupIdentities(claim), ops),
          e.claims[sender := ClaimsOf(e.claims, sender) + {claim}])
  }

  /** Every identity of the claim ends up vouched for by its sender,
      whether or not the claim itself verifies. */
  lemma EveryIdentityRegistered<Name, Id, Claim, Key>(
    e: Entry<Name, Claim, Key>, sender: Name, claim: Claim, ops: Ops<Name, Id, Claim, Key>, id: Id)
    requires id in ops.groupIdentities(claim)
    ensures sender in KeyStore.Vouchers(RecordClaim(e, sender, claim, ops).keys, ops.name(id), ops.publicKey(id))
  {
    var r := RecordClaim(e, sender, claim, ops);
    assert KeyStore.Vouch(ops.name(id), sender, ops.publicKey(id)) in r.keys.vouches;
  }

  /** Submitting the same claim from the same sender again changes nothing. */
  lemma RecordClaimIdempotent<Name, Id, Claim, Key>(
    e: Entry<Name, Claim, Key>, sender: Name, claim: Claim, ops: Ops<Name, Id, Claim, Key>)
    ensures RecordClaim(RecordClaim(e, sender, claim, ops), sender, claim, ops) == RecordClaim(e, sender, claim, ops)
  {
    var once := RecordClaim(e, sender, claim, ops);
    var twice := RecordClaim(once, sender, claim, ops);
    assert twice.keys == once.keys;
    assert twice.claims == once.claims;
  }

  // ---------------------------------------------------------------------
  // Verification and selection

  /** A claim verifies when one of the keys accumulated for its author checks its signature. */
  function VerifyClaim<Name(==), Id, Claim, Key(==)>(
    author: Name, ks: KeyStore.Store<Name, Key>, claim: Claim, ops: Ops<Name, Id, Claim, Key>): (verified: bool)
    ensures KeyStore.AccumulatedKeys(ks, author) == {} ==> !verified
  {
    exists key | key in KeyStore.AccumulatedKeys(ks, author) :: ops.verifyPublicKey(claim, key)
  }

  /** Verification is gated on corroboration: it succeeds exactly when some key
      vouched for the author by at least the store's threshold of distinct
      names (and at least one) checks the claim. */
  lemma VerifyClaimKeyGated<Name, Id, Claim, Key>(
    author: Name, ks: KeyStore.Store<Name, Key>, claim: Claim, ops: Ops<Name, Id, Claim, Key>)
    ensures VerifyClaim(author, ks, claim, ops) <==>
              exists key :: ops.verifyPublicKey(claim, key)
                && KeyStore.Vouchers(ks, author, key) != {}
                && |KeyStore.Vouchers(ks, author, key)| >= ks.threshold
  {
    if VerifyClaim(author, ks, claim, ops) {
      var key :| key in KeyStore.AccumulatedKeys(ks, author) && ops.verifyPublicKey(claim, key);
      KeyStore.AccumulatedKeysExactly(ks, author, key);
    }
    if exists key :: ops.verifyPublicKey(claim, key)
                && KeyStore.Vouchers(ks, author, key) != {}
                && |KeyStore.Vouchers(ks, author, key)| >= ks.threshold {
      var key :| ops.verifyPublicKey(claim, key)
                && KeyStore.Vouchers(ks, author, key) != {}
                && |KeyStore.Vouchers(ks, author, key)| >= ks.threshold;
      KeyStore.AccumulatedKeysExactly(ks, author, key);
    }
  }

  /** A claim that verifies keeps verifying as more vouches arrive. */
  lemma VerifyClaimMonotone<Name, Id, Claim, Key>(
    author: Name, ks: KeyStore.Store<Name, Key>, ks': KeyStore.Store<Name, Key>, claim: Claim, ops: Ops<Name, Id, Claim, Key>)
    requires ks'.threshold == ks.threshold && ks.vouches <= ks'.vouches
    requires VerifyClaim(author, ks, claim, ops)
    ensures VerifyClaim(author, ks', claim, ops)
  {
    KeyStore.AccumulatedKeysMonotone(ks, ks', author);
    var key :| key in KeyStore.AccumulatedKeys(ks, author) && ops.verifyPublicKey(claim, key);
    assert key in KeyStore.AccumulatedKeys(ks', author);
  }

  /** The first of `candidates` that verifies for `author`, scanning in order. */
  function FirstVerifying<Name(==), Id, Claim, Key(==)>(
    author: Name, ks: KeyStore.Store<Name, Key>, candidates: seq<Claim>, ops: Ops<Name, Id, Claim, Key>): (r: Option<Claim>)
    ensures r.None? <==> forall i :: 0 <= i < |candidates| ==> !VerifyClaim(author, ks, candidates[i], ops)
    ensures r.Some? ==> exists i :: 0 <= i < |candidates| && candidates[i] == r.value
                          && VerifyClaim(author, ks, r.value, ops)
                          && forall j :: 0 <= j < i ==> !VerifyClaim(author, ks, candidates[j], ops)
  {
    if candidates == [] then None
    else if VerifyClaim(author, ks, candidates[0], ops) then Some(candidates[0])
    else
      var r := FirstVerifying(author, ks, candidates[1..], ops);
      assert forall i :: 1 <= i < |candidates| ==> candidates[i] == candidates[1..][i - 1];
      r
  }

  /** The claim `author` contributes: the first verifying one of its claims in ascending order. */
  function SenderPick<Name(==), Id, Claim(!new, ==), Key(==)>(
    author: Name, ks: KeyStore.Store<Name, Key>, claims: set<Claim>, ops: Ops<Name, Id, Claim, Key>): (r: Option<Claim>)
    requires TotalOrder(ops.claimLe)
    ensures r.Some? ==> r.value in claims && VerifyClaim(author, ks, r.value, ops)
  {
    FirstVerifying(author, ks, Ascending(claims, ops.claimLe), ops)
  }

  /** A sender contributes the least of its claims that verifies, and nothing
      exactly when none of its claims verifies. */
  lemma SenderPickIsLeastVerifying<Name, Id, Claim(!new), Key>(
    author: Name, ks: KeyStore.Store<Name, Key>, claims: set<Claim>, ops: Ops<Name, Id, Claim, Key>)
    requires TotalOrder(ops.claimLe)
    ensures SenderPick(author, ks, claims, ops).None? <==> forall c :: c in claims ==> !VerifyClaim(author, ks, c, ops)
    ensures SenderPick(author, ks, claims, ops).Some? ==>
              var c := SenderPick(author, ks, claims, ops).value;
              && c in claims && VerifyClaim(author, ks, c, ops)
              && forall d :: d in claims && VerifyClaim(author, ks, d, ops) ==> ops.claimLe(c, d)
  {
    var q := Ascending(claims, ops.claimLe);
    var r := SenderPick(author, ks, claims, ops);
    if r.None? {
      forall c | c in claims ensures !VerifyClaim(author, ks, c, ops) {
        var i :| 0 <= i < |q| && q[i] == c;
      }
    } else {
      var i :| 0 <= i < |q| && q[i] == r.value && VerifyClaim(author, ks, r.value, ops)
               && forall j :: 0 <= j < i ==> !VerifyClaim(author, ks, q[j], ops);
      forall d | d in claims && VerifyClaim(author, ks, d, ops) ensures ops.claimLe(r.value, d) {
        var j :| 0 <= j < |q| && q[j] == d;
        if j != i {
          assert i < j;
        }
      }
    }
  }

  /** The set of claims contributed by the senders (claims equal across senders count once). */
  function VerifiedClaims<Name(==), Id, Claim(!new, ==), Key(==)>(
    ks: KeyStore.Store<Name, Key>, claims: map<Name, set<Claim>>, ops: Ops<Name, Id, Claim, Key>): set<Claim>
    requires TotalOrder(ops.claimLe)
  {
    set n | n in claims && SenderPick(n, ks, claims[n], ops).Some? :: SenderPick(n, ks, claims[n], ops).value
  }

  lemma SubsetCardinality<T>(a: set<T>, b: set<T>)
    requires a <= b
    ensures |a| <= |b|
  {
    assert b == a + (b - a);
  }

  /** Each sender contributes at most one claim. */
  lemma {:induction false} VerifiedClaimsAtMostSenders<Name, Id, Claim(!new), Key>(
    ks: KeyStore.Store<Name, Key>, claims: map<Name, set<Claim>>, ops: Ops<Name, Id, Claim, Key>)
    requires TotalOrder(ops.claimLe)
    ensures |VerifiedClaims(ks, claims, ops)| <= |claims|
    decreases |claims|
  {
    if claims != map[] {
      var n :| n in claims;
      var rest := claims - {n};
      assert |rest| == |claims| - 1;
      VerifiedClaimsAtMostSenders(ks, rest, ops);
      var pick := SenderPick(n, ks, claims[n], ops);
      var extra := if pick.Some? then {pick.value} else {};
      forall c | c in VerifiedClaims(ks, claims, ops) ensures c in VerifiedClaims(ks, rest, ops) + extra {
        var m :| m in claims && SenderPick(m, ks, claims[m], ops).Some? && SenderPick(m, ks, claims[m], ops).value == c;
        if m != n {
          assert m in rest && rest[m] == claims[m];
        }
      }
      SubsetCardinality(VerifiedClaims(ks, claims, ops), VerifiedClaims(ks, rest, ops) + extra);
    }
  }

  /** Only submitted claims are counted, so there are at most as many as distinct submitted claims. */
  lemma VerifiedClaimsAreSubmitted<Name, Id, Claim(!new), Key>(
    ks: KeyStore.Store<Name, Key>, claims: map<Name, set<Claim>>, ops: Ops<Name, Id, Claim, Key>)
    requires TotalOrder(ops.claimLe)
    ensures VerifiedClaims(ks, claims, ops) <= AllClaims(claims)
    ensures |VerifiedClaims(ks, claims, ops)| <= |AllClaims(claims)|
  {
    forall c | c in VerifiedClaims(ks, claims, ops) ensures c in AllClaims(claims) {
      var n :| n in claims && SenderPick(n, ks, claims[n], ops) == Some(c);
      SenderPickIsLeastVerifying(n, ks, claims[n], ops);
    }
    SubsetCardinality(VerifiedClaims(ks, claims, ops), AllClaims(claims));
  }

  /** Every counted claim was submitted by a sender for whom it verifies. */
  lemma VerifiedClaimsAreVerified<Name, Id, Claim(!new), Key>(
    ks: KeyStore.Store<Name, Key>, claims: map<Name, set<Claim>>, ops: Ops<Name, Id, Claim, Key>, c: Claim)
    requires TotalOrder(ops.claimLe)
    ensures c in VerifiedClaims(ks, claims, ops) ==>
              exists n :: n in claims && c in claims[n] && VerifyClaim(n, ks, c, ops)
                && KeyStore.AccumulatedKeys(ks, n) != {}
  {
    if c in VerifiedClaims(ks, claims, ops) {
      var n :| n in claims && SenderPick(n, ks, claims[n], ops) == Some(c);
      SenderPickIsLeastVerifying(n, ks, claims[n], ops);
    }
  }

  /** A sender with a verifying claim always contributes one. */
  lemma VerifyingSenderContributes<Name, Id, Claim(!new), Key>(
    ks: KeyStore.Store<Name, Key>, claims: map<Name, set<Claim>>, ops: Ops<Name, Id, Claim, Key>, n: Name, c: Claim)
    requires TotalOrder(ops.claimLe)
    requires n in claims && c in claims[n] && VerifyClaim(n, ks, c, ops)
    ensures SenderPick(n, ks, claims[n], ops).Some?
    ensures SenderPick(n, ks, claims[n], ops).value in VerifiedClaims(ks, claims, ops)
    ensures ops.claimLe(SenderPick(n, ks, claims[n], ops).value, c)
  {
    SenderPickIsLeastVerifying(n, ks, claims[n], ops);
  }

  /** Identities of the claims, concatenated in the order of the claims, duplicates kept. */
  function GroupIdentitiesOf<Name, Id, Claim, Key>(cs: seq<Claim>, ops: Ops<Name, Id, Claim, Key>): seq<Id> {
    if cs == [] then [] else ops.groupIdentities(cs[0]) + GroupIdentitiesOf(cs[1..], ops)
  }

  /** The total number of identities the claims assert. */
  ghost function IdentityCount<Name, Id, Claim, Key>(cs: seq<Claim>, ops: Ops<Name, Id, Claim, Key>): nat {
    if cs == [] then 0 else |ops.groupIdentities(cs[0])| + IdentityCount(cs[1..], ops)
  }

  /** The concatenation holds exactly the claims' identities, all of them. */
  lemma {:induction false} GroupIdentitiesOfContents<Name, Id, Claim, Key>(cs: seq<Claim>, ops: Ops<Name, Id, Claim, Key>)
    ensures |GroupIdentitiesOf(cs, ops)| == IdentityCount(cs, ops)
    ensures forall id :: id in GroupIdentitiesOf(cs, ops) <==>
              exists i :: 0 <= i < |cs| && id in ops.groupIdentities(cs[i])
  {
    if cs != [] {
      GroupIdentitiesOfContents(cs[1..], ops);
      forall id ensures id in GroupIdentitiesOf(cs, ops) <==> exists i :: 0 <= i < |cs| && id in ops.groupIdentities(cs[i]) {
        if id in GroupIdentitiesOf(cs[1..], ops) {
          var i :| 0 <= i < |cs[1..]| && id in ops.groupIdentities(cs[1..][i]);
          assert id in ops.groupIdentities(cs[i + 1]);
        }
        if exists i :: 0 <= i < |cs| && id in ops.groupIdentities(cs[i]) {
          var i :| 0 <= i < |cs| && id in ops.groupIdentities(cs[i]);
          if i > 0 {
            assert cs[i] == cs[1..][i - 1];
          }
        }
      }
    }
  }

  /** Concatenating claim lists concatenates their identities. */
  lemma {:induction false} GroupIdentitiesOfAppend<Name, Id, Claim, Key>(a: seq<Claim>, b: seq<Claim>, ops: Ops<Name, Id, Claim, Key>)
    ensures GroupIdentitiesOf(a + b, ops) == GroupIdentitiesOf(a, ops) + GroupIdentitiesOf(b, ops)
  {
    if a != [] {
      assert (a + b)[1..] == a[1..] + b;
      GroupIdentitiesOfAppend(a[1..], b, ops);
    } else {
      assert a + b == b;
    }
  }

  /** Selection: resolves with the identities of the verified claims, taken in
      ascending claim order, once there are at least `claimThreshold` of them. */
  function TrySelectingGroup<Name(==), Id, Claim(!new, ==), Key(==)>(
    ks: KeyStore.Store<Name, Key>, claims: map<Name, set<Claim>>, claimThreshold: nat, ops: Ops<Name, Id, Claim, Key>): (r: Option<seq<Id>>)
    requires TotalOrder(ops.claimLe)
    ensures r.None? <==> |VerifiedClaims(ks, claims, ops)| < claimThreshold
    ensures claimThreshold == 0 ==> r.Some?
    ensures r.Some? ==> claimThreshold <= |claims| && claimThreshold <= |AllClaims(claims)|
  {
    var verified := VerifiedClaims(ks, claims, ops);
    if |verified| < claimThreshold then None
    else
      VerifiedClaimsAtMostSenders(ks, claims, ops);
      VerifiedClaimsAreSubmitted(ks, claims, ops);
      Some(GroupIdentitiesOf(Ascending(verified, ops.claimLe), ops))
  }

  /** A resolved group lists exactly the identities of the verified claims,
      as many entries as those claims assert together. */
  lemma SelectedIdentities<Name, Id, Claim(!new), Key>(
    ks: KeyStore.Store<Name, Key>, claims: map<Name, set<Claim>>, claimThreshold: nat, ops: Ops<Name, Id, Claim, Key>)
    requires TotalOrder(ops.claimLe)
    requires TrySelectingGroup(ks, claims, claimThreshold, ops).Some?
    ensures var ids := TrySelectingGroup(ks, claims, claimThreshold, ops).value;
            var verified := Ascending(VerifiedClaims(ks, claims, ops), ops.claimLe);
            && |ids| == IdentityCount(verified, ops)
            && forall id :: id in ids <==>
                 exists c :: c in VerifiedClaims(ks, claims, ops) && id in ops.groupIdentities(c)
  {
    var verified := Ascending(VerifiedClaims(ks, claims, ops), ops.claimLe);
    var ids := GroupIdentitiesOf(verified, ops);
    GroupIdentitiesOfContents(verified, ops);
    forall id ensures id in ids <==> exists c :: c in VerifiedClaims(ks, claims, ops) && id in ops.groupIdentities(c) {
      if exists c :: c in VerifiedClaims(ks, claims, ops) && id in ops.groupIdentities(c) {
        var c :| c in VerifiedClaims(ks, claims, ops) && id in ops.groupIdentities(c);
        var i :| 0 <= i < |verified| && verified[i] == c;
      }
    }
  }

  /** When every sender submitted the same claim value, at most one claim is
      counted, so a threshold above one is never reached. */
  lemma SingleClaimValueCountsOnce<Name, Id, Claim(!new), Key>(
    ks: KeyStore.Store<Name, Key>, claims: map<Name, set<Claim>>, ops: Ops<Name, Id, Claim, Key>, c: Claim, claimThreshold: nat)
    requires TotalOrder(ops.claimLe)
    requires forall n :: n in claims ==> claims[n] <= {c}
    ensures |VerifiedClaims(ks, claims, ops)| <= 1
    ensures claimThreshold > 1 ==> TrySelectingGroup(ks, claims, claimThreshold, ops).None?
  {
    VerifiedClaimsAreSubmitted(ks, claims, ops);
    SubsetCardinality(AllClaims(claims), {c});
  }

  /** A sender that contributed a claim still contributes one after any
      submission to the same request. */
  lemma ContributorsPersist<Name, Id, Claim(!new), Key>(
    e: Entry<Name, Claim, Key>, sender: Name, claim: Claim, ops: Ops<Name, Id, Claim, Key>, n: Name)
    requires TotalOrder(ops.claimLe)
    requires n in e.claims && SenderPick(n, e.keys, e.claims[n], ops).Some?
    ensures var r := RecordClaim(e, sender, claim, ops);
            n in r.claims && SenderPick(n, r.keys, r.claims[n], ops).Some?
  {
    var r := RecordClaim(e, sender, claim, ops);
    SenderPickIsLeastVerifying(n, e.keys, e.claims[n], ops);
    var c := SenderPick(n, e.keys, e.claims[n], ops).value;
    VerifyClaimMonotone(n, e.keys, r.keys, c, ops);
    assert c in r.claims[n];
    SenderPickIsLeastVerifying(n, r.keys, r.claims[n], ops);
  }

  /** The loop of a submission that adds every identity's key to the store. */
  method AddKeys<Name(==), Id(==), Claim, Key(==)>(
    ks: KeyStore.Store<Name, Key>, sender: Name, ids: seq<Id>, ops: Ops<Name, Id, Claim, Key>) returns (keys: KeyStore.Store<Name, Key>)
    ensures keys == RegisterIdentities(ks, sender, ids, ops)
  {
    keys := ks;
    var i := 0;
    while i < |ids|
      invariant 0 <= i <= |ids|
      invariant keys.threshold == ks.threshold
      invariant keys.vouches == ks.vouches + VouchesOf(sender, ids[..i], ops)
    {
      assert VouchesOf(sender, ids[..i + 1], ops)
          == VouchesOf(sender, ids[..i], ops) + {KeyStore.Vouch(ops.name(ids[i]), sender, ops.publicKey(ids[i]))} by {
        assert ids[..i + 1] == ids[..i] + [ids[i]];
      }
      keys := KeyStore.AddKey(keys, ops.name(ids[i]), sender, ops.publicKey(ids[i]));
      i := i + 1;
    }
    assert ids[..i] == ids;
  }

  // ---------------------------------------------------------------------
  // The sentinel

  class KeySentinel<Request(!new, ==), Name(==), Id(==), Claim(!new, ==), Key(==)> {
    const claimThreshold: nat
    const keysThreshold: nat
    const ops: Ops<Name, Id, Claim, Key>
    /** The pending requests. */
    const cache: LruCache.LruCache<Request, Entry<Name, Claim, Key>>

    ghost predicate Valid()
      reads this, cache
    {
      && TotalOrder(ops.claimLe)
      && cache.Valid()
      && cache.capacity == MaxRequestCount
      && forall r :: r in cache.entries ==> cache.entries[r].keys.threshold == keysThreshold
    }

    /** The entry of `request`, or the one a new request starts with. */
    ghost function Pending(request: Request): Entry<Name, Claim, Key>
      reads this, cache
    {
      if request in cache.entries then cache.entries[request] else NewEntry(keysThreshold)
    }

    constructor (claimThreshold: nat, keysThreshold: nat, ops: Ops<Name, Id, Claim, Key>)
      requires TotalOrder(ops.claimLe)
      ensures Valid() && fresh(cache)
      ensures this.claimThreshold == claimThreshold && this.keysThreshold == keysThreshold && this.ops == ops
      ensures cache.entries == map[]
    {
      this.claimThreshold := claimThreshold;
      this.keysThreshold := keysThreshold;
      this.ops := ops;
      cache := new LruCache.LruCache(MaxRequestCount);
    }

    /** Accepts `claim` from `sender` for `request`, and resolves the request
        when a quorum of verified claims has been reached. */
    method AddIdentities(request: Request, sender: Name, claim: Claim) returns (result: Option<(Request, seq<Id>)>)
      requires Valid()
      modifies cache
      ensures Valid()
      ensures var e := RecordClaim(old(Pending(request)), sender, claim, ops);
              var selected := TrySelectingGroup(e.keys, e.claims, claimThreshold, ops);
              var victims := old(cache.Victims(request));
              var touched := old(cache.Survivors(request));
              && result == (if selected.Some? then Some((request, selected.value)) else None)
              && cache.entries == (if selected.Some? then old(cache.entries) - victims - {request}
                                   else (old(cache.entries) - victims)[request := e])
              && cache.order == (if selected.Some? then touched else touched + [request])
      ensures claimThreshold == 0 ==> result.Some?
      ensures result.Some? ==> result.value.0 == request && request !in cache.entries
                                 && Pending(request) == NewEntry(keysThreshold)
      ensures result.None? ==>
                && request in cache.entries
                && cache.entries[request].claims[sender] == ClaimsOf(old(Pending(request)).claims, sender) + {claim}
      ensures forall r :: r in old(cache.entries) && r != request && r !in old(cache.Victims(request)) ==>
                r in cache.entries && cache.entries[r] == old(cache.entries)[r]
    {
      ghost var before := cache.entries;
      ghost var victims := cache.Victims(request);
      ghost var rest := cache.Survivors(request);
      var updated := RecordSubmission(request, sender, claim);
      var selected := TrySelectingGroup(updated.keys, updated.claims, claimThreshold, ops);
      if selected.Some? {
        LruCache.WithoutAppend(rest, request);
        cache.Remove(request);
        LruCache.UpdateThenRemove(before - victims, request, updated);
        result := Some((request, selected.value));
      } else {
        result := None;
      }
    }

    /** Steps 1 to 3 of a submission: get or create the request's entry,
        register the claim's identities, add the claim to the sender's set. */
    method RecordSubmission(request: Request, sender: Name, claim: Claim) returns (updated: Entry<Name, Claim, Key>)
      requires Valid()
      modifies cache
      ensures Valid()
      ensures updated == RecordClaim(old(Pending(request)), sender, claim, ops)
      ensures cache.entries == (old(cache.entries) - old(cache.Victims(request)))[request := updated]
      ensures cache.order == old(cache.Survivors(request)) + [request]
    {
      ghost var before := cache.entries;
      ghost var victims := cache.Victims(request);
      var entry := cache.GetOrInsert(request, NewEntry(keysThreshold));
      assert entry.keys.threshold == keysThreshold;
      var keys := AddKeys(entry.keys, sender, ops.groupIdentities(claim), ops);
      var claims := entry.claims[sender := ClaimsOf(entry.claims, sender) + {claim}];
      updated := Entry(keys, claims);
      assert updated == RecordClaim(entry, sender, claim, ops);
      cache.Update(request, updated);
      LruCache.UpdateTwice(before - victims, request, entry, updated);
      assert forall r :: r in cache.entries ==> cache.entries[r].keys.threshold == keysThreshold;
    }
  }
}
