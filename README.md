# Key sentinel: a Dafny model

The key sentinel is a quorum-based accumulator of group claims. Peers send
claims about a pending request ("these identities are the group"). The
sentinel keeps a bounded cache that maps each request to two things:

- a key-corroboration store, which records that some sender vouches that an
  identity name owns a public key;
- a map from each sender to the set of claims it has submitted.

`add_identities` handles one submission, in order:

1. Get or create the request's entry.
2. Register every identity of the claim as vouched for by the sender.
3. Add the claim to the sender's set.
4. Try to select a group.

A claim verifies when one of the keys the store has accumulated for its
sender checks its signature. Each sender contributes at most one claim: the
least of its claims, in the claims' order, that verifies. A group is
selected once the claims picked per sender form at least `claim_threshold`
distinct claims. A sender's other verifying claims do not count. On success the
entry is removed and the request comes back with the concatenated identities
of the verified claims, in ascending claim order and with duplicates kept.

Files:

- `ordering.dfy` (module `Ordering`): total orders given as a `<=`
  function. It defines the least element of a finite set and the ascending
  enumeration of a set, which is the order a B-tree set iterates in.
- `key_store.dfy` (module `KeyStore`): the key-corroboration store. Its
  source (`key_store.rs`) is not part of this model. The store given here is
  an assumed one (see "Left out").
- `lru_cache.dfy` (module `LruCache`): the bounded least-recently-used cache
  as a class. It supports get-or-insert with eviction, in-place update and
  removal.
- `key_sentinel.dfy` (module `Sentinel`): the sentinel. Selection and
  verification are pure functions with lemmas. `KeySentinel` is a class
  whose `AddIdentities` method changes the cache in place. The generic
  `IdTrait` and `GroupClaimTrait` operations, and the claims' `Ord`, are the
  function fields of an `Ops` value. Signature checking (`verifyPublicKey`)
  is one of these fields and is left uninterpreted.

## Model

| member | source | states |
|---|---|---|
| `Sentinel.KeySentinel.constructor` | src/key_sentinel.rs:59-66 | The cache starts empty with capacity `MaxRequestCount` = 1000, and both thresholds are stored unchanged. |
| `Sentinel.KeySentinel.AddIdentities` | src/key_sentinel.rs:70-99 | The result is `Some((request, ids))` exactly when selection succeeds on the recorded entry, and `ids` is the selection's list. On success the request's entry is gone, so a later claim starts a fresh entry. Otherwise the entry is kept and the sender's set is the old set plus the claim. No other entry changes, except that the least recently used one is evicted when a new request arrives at a full cache. With `claim_threshold` = 0 every call succeeds. The cache never holds more than 1000 requests. |
| `Sentinel.KeySentinel.RecordSubmission` | src/key_sentinel.rs:76-89 | Steps 1 to 3: gets or creates the entry (touching or evicting as the cache does), then stores exactly `RecordClaim` of the previous entry. |
| `Sentinel.AddKeys` | src/key_sentinel.rs:85-87 | The loop that calls `add_key` for each identity, in order, computes `RegisterIdentities`. |
| `Sentinel.RegisterIdentities` | src/key_sentinel.rs:85-87 | After the fold, the store holds its old vouches plus one vouch (name, sender, public key) per identity of the claim. The threshold is unchanged. |
| `Sentinel.RecordClaim` | src/key_sentinel.rs:79-89 | One submission's effect on an entry: the identities' vouches are added; the sender's claim set becomes the old set plus the claim; every other sender's set is unchanged. |
| `Sentinel.EveryIdentityRegistered` | src/key_sentinel.rs:85-87 | Every identity of the claim is vouched for by the sender, whether or not the claim verifies. |
| `Sentinel.RecordClaimIdempotent` | src/key_sentinel.rs:85-89 | Submitting the same claim from the same sender twice leaves the entry as one submission does. |
| `Sentinel.VerifyClaim` | src/key_sentinel.rs:121-128 | A sender with no accumulated keys never verifies. |
| `Sentinel.VerifyClaimKeyGated` | src/key_sentinel.rs:121-128 | A claim verifies if and only if some key that checks its signature has at least `threshold` distinct vouchers (and at least one) for the sender's name. |
| `Sentinel.VerifyClaimMonotone` | src/key_sentinel.rs:121-128 | More vouches never make a verifying claim fail. |
| `Sentinel.FirstVerifying` | src/key_sentinel.rs:106-111 | The inner loop with early return: it returns nothing exactly when no candidate verifies; otherwise it returns the candidate at the first position that verifies. |
| `Sentinel.SenderPickIsLeastVerifying` | src/key_sentinel.rs:105-112 | A sender contributes nothing exactly when none of its claims verifies. Otherwise it contributes the least of its verifying claims in the claims' order. |
| `Sentinel.VerifiedClaimsAtMostSenders` | src/key_sentinel.rs:105-112 | There are no more verified claims than senders. |
| `Sentinel.VerifiedClaimsAreSubmitted` | src/key_sentinel.rs:105-112 | Verified claims are submitted claims, so there are no more of them than distinct submitted claims. |
| `Sentinel.VerifiedClaimsAreVerified` | src/key_sentinel.rs:105-112 | Each verified claim was submitted by a sender for whom it verifies, and that sender has accumulated keys. |
| `Sentinel.VerifyingSenderContributes` | src/key_sentinel.rs:105-112 | A sender with some verifying claim contributes a claim that is at most that claim in the order. The contributed claim is in the verified set. |
| `Sentinel.TrySelectingGroup` | src/key_sentinel.rs:101-119 | It resolves if and only if the verified set has at least `claim_threshold` claims, and it always resolves when the threshold is 0. Resolving needs at least `claim_threshold` senders and that many distinct submitted claims. |
| `Sentinel.SelectedIdentities` | src/key_sentinel.rs:118 | A resolved list holds exactly the identities of the verified claims, without deduplication. Its length is the sum of the claims' identity counts. |
| `Sentinel.GroupIdentitiesOfContents` | src/key_sentinel.rs:118 | The flattened list has the summed length and holds exactly the identities of the listed claims. |
| `Sentinel.GroupIdentitiesOfAppend` | src/key_sentinel.rs:118 | Flattening maps concatenation of claim lists to concatenation of identity lists. |
| `Sentinel.SingleClaimValueCountsOnce` | src/key_sentinel.rs:105-116 | If every sender submitted the same claim value, at most one claim counts, so any `claim_threshold` above 1 is never reached. |
| `Sentinel.ContributorsPersist` | src/key_sentinel.rs:79-112 | A sender that contributed a claim still contributes one after any further submission to the request. |
| `Sentinel.NewEntry` | src/key_sentinel.rs:80 | Definition of the default entry: a fresh store with `keys_threshold` and no claims. Its properties are in `KeyStore.NewExposesNothing` and `Sentinel.KeySentinel.AddIdentities`. |
| `Sentinel.SenderPick` | src/key_sentinel.rs:106-111 | Definition of the per-sender early-return loop, walked in the claim set's ascending order. A picked claim is one of the sender's claims and verifies. Its other properties are in `Sentinel.SenderPickIsLeastVerifying`. |
| `Sentinel.VerifiedClaims` | src/key_sentinel.rs:105-112 | Definition of the `filter_map` and `collect` into a set. Its properties are in `Sentinel.VerifiedClaimsAtMostSenders`, `Sentinel.VerifiedClaimsAreSubmitted`, `Sentinel.VerifiedClaimsAreVerified` and `Sentinel.VerifyingSenderContributes`. |
| `Sentinel.GroupIdentitiesOf` | src/key_sentinel.rs:118 | Definition of the `flat_map`. Its properties are in `Sentinel.GroupIdentitiesOfContents` and `Sentinel.GroupIdentitiesOfAppend`. |
| `KeyStore.New` | src/key_sentinel.rs:80 | Definition of an empty store with the given threshold. Its properties are in `KeyStore.NewExposesNothing`. |
| `KeyStore.Vouchers` | src/key_sentinel.rs:122 | Definition of the distinct names that vouched that a name owns a key. Its properties are in `KeyStore.AddKey` and `KeyStore.AccumulatedKeysExactly`. |
| `KeyStore.AccumulatedKeys` | src/key_sentinel.rs:122 | Definition of `get_accumulated_keys` under the assumed policy. Its properties are in `KeyStore.AccumulatedKeysExactly`, `KeyStore.AccumulatedKeysMonotone` and `KeyStore.NewExposesNothing`. |
| `Ordering.LeastExists` | src/key_sentinel.rs:28 | Every non-empty finite set of claims has a least element under the claims' total order. |
| `Ordering.Ascending` | src/key_sentinel.rs:28 | The B-tree set's iteration order: it lists each element of the set exactly once, in strictly ascending order. |
| `Ordering.AscendingUnique` | src/key_sentinel.rs:28 | That iteration order is the only strictly ascending listing of the set. |
| `KeyStore.NewExposesNothing` | src/key_sentinel.rs:80 | A fresh store exposes no key for any name. |
| `KeyStore.AddKey` | src/key_sentinel.rs:86 | After `add_key` the store holds exactly its old vouches plus the new one, so the voucher is among the key's vouchers for that name. Nothing else changes, and the threshold is unchanged. |
| `KeyStore.AccumulatedKeysExactly` | src/key_sentinel.rs:122 | A key is accumulated for a name if and only if it has at least `threshold` distinct vouchers, and at least one. |
| `KeyStore.AccumulatedKeysMonotone` | src/key_sentinel.rs:122 | More vouches never hide an accumulated key. |
| `LruCache.LruCache.constructor` | src/key_sentinel.rs:62 | An empty cache with the given capacity. |
| `LruCache.LruCache.GetOrInsert` | src/key_sentinel.rs:79-80 | Returns the existing entry, or inserts the default entry. The key becomes the most recently used. A new key at a full cache evicts the least recently used key first, so the capacity bound holds. |
| `LruCache.LruCache.Touch` | src/key_sentinel.rs:79-80 | An existing key moves to the most recently used position. Nothing else changes. |
| `LruCache.LruCache.Insert` | src/key_sentinel.rs:79-80 | A new key is added as the most recently used, after evicting the least recently used key when the cache is full. |
| `LruCache.LruCache.Update` | src/key_sentinel.rs:82-89 | Mutating an entry in place replaces its value and leaves the recency order alone. |
| `LruCache.LruCache.Remove` | src/key_sentinel.rs:96 | Removal drops the key's entry and its place in the recency order. |

## Left out

- `key_store.rs` is not part of this model. `KeyStore` assumes a policy: every vouch is kept, so re-vouching another key for the same name adds to it rather than replacing it. A key counts as accumulated once at least `threshold` distinct vouchers (and at least one) have vouched for it. A name's own vouch for its own key counts toward `threshold`. So with `keys_threshold` 1, a sender that lists its own identity in a claim makes its own key accumulated. A store that wanted corroboration only from other senders would not count that vouch, and the model does not capture such a store. `KeyStore.AccumulatedKeysExactly`, `Sentinel.VerifyClaimKeyGated` and `KeyStore.AccumulatedKeysMonotone` rest on this assumption, not on verified source behaviour. `get_accumulated_keys` takes the store mutably in the source; here it is a pure query.
- Cryptography: `verify_public_key` is an uninterpreted field of `Ops`. Key generation and signing in the tests are not modelled.
- Claim equality: the model treats two claims that compare equal under `Ord` as the same value, with the same identities and the same signature check. A B-tree set keeps the first of two equal elements, so when equal claims behave differently the source's choice is not captured. The test's claim type is such a case: its equality looks only at the message, not the signature.
- The order of sender names and of requests is not modelled: verified claims are collected into a set, so the senders' order cannot affect the result.
- `lru_time_cache` internals: time-based expiry is not used by the source and is not modelled. The cache is assumed to touch existing entries on access and to evict the least recently used entry when a new key would exceed capacity. `LruCache.LruCache.constructor` requires a positive capacity, which `MaxRequestCount` meets.
- `PhantomData`, the `Debug` impls and random name generation in the tests are not modelled.
- The test `make_key_sentinel` is not a property here. Its claims' identity list is always empty, so no key is ever vouched for. Its claims also all compare equal under `Ord`, although their signatures differ. In the source, collecting the picked claims into a set (src/key_sentinel.rs:112) therefore keeps at most one of them. The model cannot represent that claim type (see the claim-equality line above). `Sentinel.SingleClaimValueCountsOnce` covers only the case where the claims are identical. Either way, the test's final `is_some()` assertion, with a threshold of 10, is not supported by the code.
- Concurrency: the source is sequential, and so is the model.
