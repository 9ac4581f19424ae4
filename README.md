# Voice-NFT registry of the backend canister

This project models the voice-NFT registry kept by the backend canister of ICP-Voice-NFT (`src/icp_hello_world_rust_backend/src/lib.rs`). The canister stores a list of voice NFTs. Each record has an `id`, an owning principal, a display `name` and a voice fingerprint. Three entry points act on the list:

- `register_voice_nft` refuses the call when the caller already holds a record with the requested name. Otherwise it creates a record whose id is the current number of records, stores it by inserting at index `len` (which appends it), and returns it.
- `list_nfts` always returns `Ok`, holding the caller's records in storage order.
- `count_all` returns the number of records.

`init` names the collection `"vNFT"` and installs the default PNG logo on top of the default (empty) state.

The model has two modules:

- `Registry` (`registry.dfy`) holds the record types, the two scans the entry points use, and lemmas about them. The scans are written front to back, as the iterators run. `HasNft` is the iterator `any`; `OwnedBy` is the iterator `filter`. The lemmas cover the two invariants that registration keeps:
  - every id equals the record's position;
  - no principal holds two records with the same name.
- `Backend` (`backend.dfy`) holds the canister state as a class `State`. Its fields are those of the Rust `State`. `Init` models the default state plus `init`. The queries `CountAll` and `ListNfts` are functions reading the state. `Register` is a method that changes the state and keeps `Valid()`, which is the conjunction of the two invariants. `RegistrationScenario` shows what a client can conclude from these contracts alone.

The principal making a call (`ic_cdk::api::caller()`) is a parameter. The fingerprint is opaque to the registry, so its element type is a type parameter `F`.

## Model

| member | source | states |
|---|---|---|
| `Registry.HasNft` | src/icp_hello_world_rust_backend/src/lib.rs:140-142 | true exactly when some stored record has the given owner and the given name |
| `Registry.OwnedBy` | src/icp_hello_world_rust_backend/src/lib.rs:125-128 | the filter by owner, never longer than the store; which records it holds is stated by `Registry.OwnedByMembers`, and their storage order by `Registry.OwnedByAppend` and `Registry.OwnedByAppendOne` |
| `Registry.OwnedByMembers` | src/icp_hello_world_rust_backend/src/lib.rs:121-129 | every listed record is stored and owned by the owner; every stored record of the owner is listed; the listing is empty exactly when the owner has no record |
| `Registry.OwnedByAppend` | src/icp_hello_world_rust_backend/src/lib.rs:125-128 | filtering a concatenation is the concatenation of the filtered parts, so a listing keeps storage order |
| `Registry.OwnedByAppendOne` | src/icp_hello_world_rust_backend/src/lib.rs:125-128 | appending one record adds it to the end of its owner's listing and leaves every other principal's listing as it was |
| `Registry.OwnedByKeepsIdsIncreasing` | src/icp_hello_world_rust_backend/src/lib.rs:117-130 | if ids increase along the store, they increase along every listing |
| `Registry.OwnedByNamesDistinct` | src/icp_hello_world_rust_backend/src/lib.rs:117-146 | while no principal holds a name twice, one principal's listing never shows a name twice |
| `Registry.Insert` | src/icp_hello_world_rust_backend/src/lib.rs:159 | `Vec::insert` at an index no greater than the length: one element longer, the new element at the index, earlier elements in place, later ones shifted up by one |
| `Registry.InsertAtEndAppends` | src/icp_hello_world_rust_backend/src/lib.rs:149-159 | inserting at index `len`, as registration does, is appending |
| `Registry.AppendKeepsIdsArePositions` | src/icp_hello_world_rust_backend/src/lib.rs:149-159 | after an append, ids equal positions exactly when they did before and the new id is the previous length |
| `Registry.AppendKeepsUniqueOwnerName` | src/icp_hello_world_rust_backend/src/lib.rs:140-146 | from a store with unique (owner, name) pairs, an append keeps them unique exactly when the owner held no record of that name |
| `Registry.IdsArePositionsIncrease` | src/icp_hello_world_rust_backend/src/lib.rs:149-159 | ids that equal positions strictly increase, so no two records share an id |
| `Registry.IdSetSize` | src/icp_hello_world_rust_backend/src/lib.rs:149-159 | when ids equal positions, there are as many distinct ids as records and each id is below the record count |
| `Backend.State.Init` | src/icp_hello_world_rust_backend/src/lib.rs:58-85 | the default state followed by `init`: no records, txid 0, name `"vNFT"`, logo set to the PNG logo, invariant established |
| `Backend.State.CountAll` | src/icp_hello_world_rust_backend/src/lib.rs:106-114 | the number of stored records, read without changing state; under the id invariant it is the number of distinct ids and exceeds every id |
| `Backend.State.ListNfts` | src/icp_hello_world_rust_backend/src/lib.rs:117-130 | always `Ok`, read without changing state; it holds exactly the caller's stored records, and is empty exactly when the caller has none; under the id invariant its ids strictly increase, so it is in storage order with no record repeated |
| `Backend.State.Register` | src/icp_hello_world_rust_backend/src/lib.rs:134-163 | on a name the caller already holds: the duplicate-name error, and the state is unchanged. Otherwise: `Ok` of a record with the caller as owner, the requested name and data, and the previous count as id. That record is appended, so the count grows by one and the earlier records keep their positions and contents. The caller's listing gains exactly that record at its end; other principals' listings are unchanged. Logo, name, txid and both invariants are preserved |

## Left out

- `match_speakers`, `match_speaker_fingerprint` and `cosine_similarity` are not part of this model: they compute 64-bit floating-point similarities with a square root and a 0.90 threshold, and they divide by zero on zero vectors.
- The `Storable` / `BoundedStorable` implementations for `VoiceNFT` are not modelled. They serialise through `serde_json`, a library outside the model, and the state never uses them because it keeps a plain vector.
- The `thread_local!` / `RefCell` cell holding the state is modelled as one `State` object. Calls run one at a time on that object.
- The embedded base64 logo image is `Init`'s `logoData` parameter: its contents are a build-time file.
- `Backend.State.Register`: the id is an unbounded `nat`, not `u64`, and the length casts (`as u64`, `as usize`) are not modelled. This is because a wasm32 vector stays below 2^32 entries, so both casts are lossless. Memory exhaustion in `Vec::insert` is also not modelled.
- `Principal::from_slice(caller.as_slice())` converts between two crates' principal types, so it is the identity here. Its 29-byte length bound is not modelled.
- Fingerprint elements are `f64` in the source; here they are a type parameter, because registration only copies them.
- The `txid` field is kept but never changes, because nothing in the core writes it.
- Canister upgrades are not modelled. The `pre_upgrade` / `post_upgrade` hooks are commented out, so an upgrade discards the heap, and `init` does not run again. `STATE` then returns to `State::default()`: no records, `name` empty, `logo` None. The state the model carries from call to call persists only between upgrades.
- The React frontend, the Python fingerprint services and the Express upload stub are not part of this model. They are I/O, ML inference, messaging and payment glue around the canister. The frontend also calls `register_voice_nft` with a speaker map in one place. That does not match the canister's `RegisterArgs`.
- The integration tests call a `greet` entry point that the canister does not define, so there is no tested behaviour to model.
