/** The backend canister's state and its registry entry points.

    The canister keeps one `State`; its query and update calls act on it in
    sequence. The principal that makes a call is passed in as `caller`.
 */
module Backend {
  import opened Registry

  const CollectionName: string := "vNFT"
  const LogoType: string := "image/png"

  class State<F> {
    var nfts: seq<VoiceNft<F>>
    var logo: Option<LogoResult>
    var name: string
    var txid: nat

    /** What registration maintains: ids are positions and each principal
        holds at most one record of a name. */
    ghost predicate Valid()
      reads this
    {
      IdsArePositions(nfts) && UniqueOwnerName(nfts)
    }

    /** The default state followed by the canister's `init`, which names the
        collection and sets the logo; `logoData` is the embedded image text. */
    constructor Init(logoData: string)
      ensures Valid()
      ensures nfts == [] && txid == 0
      ensures name == CollectionName && logo == Some(LogoResult(LogoType, logoData))
    {
      nfts := [];
      txid := 0;
      name := CollectionName;
      logo := Some(LogoResult(LogoType, logoData));
    }

    /** `count_all`: the number of stored records; under the invariant it is
        also the number of distinct ids, and every id is below it. */
    function CountAll(): (n: nat)
      reads this
      ensures n == |nfts|
      ensures IdsArePositions(nfts) ==> n == |IdSet(nfts)|
      ensures IdsArePositions(nfts) ==> forall id :: id in IdSet(nfts) ==> id < n
    {
      IdSetSize(nfts);
      |nfts|
    }

    /** `list_nfts`: always succeeds, with the caller's records in storage order. */
    function ListNfts(caller: Principal): (r: Result<seq<VoiceNft<F>>>)
      reads this
      ensures r.Ok?
      ensures forall k :: 0 <= k < |r.value| ==> r.value[k] in nfts && r.value[k].owner == caller
      ensures forall i :: 0 <= i < |nfts| && nfts[i].owner == caller ==> nfts[i] in r.value
      ensures r.value == [] <==> forall i :: 0 <= i < |nfts| ==> nfts[i].owner != caller
      ensures IdsArePositions(nfts) ==> IdsIncreasing(r.value)
    {
      OwnedByMembers(nfts, caller);
      assert IdsArePositions(nfts) ==> IdsIncreasing(OwnedBy(nfts, caller)) by {
        if IdsArePositions(nfts) {
          IdsArePositionsIncrease(nfts);
          OwnedByKeepsIdsIncreasing(nfts, caller);
        }
      }
      Ok(OwnedBy(nfts, caller))
    }

    /** `register_voice_nft`: refuses a name the caller already holds and
        otherwise appends a record whose id is the previous count. */
    method Register(caller: Principal, args: RegisterArgs<F>) returns (r: Result<VoiceNft<F>>)
      requires Valid()
      modifies this
      ensures Valid()
      ensures logo == old(logo) && name == old(name) && txid == old(txid)
      ensures old(HasNft(nfts, caller, args.name)) ==> r == Err(DuplicateNameError) && nfts == old(nfts)
      ensures !old(HasNft(nfts, caller, args.name)) ==>
        && r == Ok(VoiceNft(old(|nfts|), caller, args.data, args.name))
        && nfts == old(nfts) + [r.value]
      ensures r.Ok? ==> ListNfts(caller).value == old(ListNfts(caller).value) + [r.value]
      ensures forall p :: p != caller ==> ListNfts(p).value == old(ListNfts(p).value)
      ensures r.Ok? ==> CountAll() == old(CountAll()) + 1
    {
      var owner := caller;
      if HasNft(nfts, owner, args.name) {
        return Err(DuplicateNameError);
      }
      var newId := |nfts|;
      var newNft := VoiceNft(newId, owner, args.data, args.name);
      ghost var before := nfts;
      InsertAtEndAppends(nfts, newNft);
      nfts := Insert(nfts, newId, newNft);
      AppendKeepsIdsArePositions(before, newNft);
      AppendKeepsUniqueOwnerName(before, newNft);
      forall p ensures ListNfts(p).value == old(ListNfts(p).value) + (if caller == p then [newNft] else []) {
        OwnedByAppendOne(before, newNft, p);
      }
      r := Ok(newNft);
    }
  }

  /** A client's view: a second registration of one name by one principal is
      refused, while another principal may take the same name. */
  method RegistrationScenario(alice: Principal, bob: Principal, sample: seq<real>)
    requires alice != bob
  {
    var state := new State<real>.Init("");
    var first := state.Register(alice, RegisterArgs("voice1", sample));
    assert first == Ok(VoiceNft(0, alice, sample, "voice1"));
    var again := state.Register(alice, RegisterArgs("voice1", []));
    assert again == Err(DuplicateNameError);
    var other := state.Register(bob, RegisterArgs("voice1", sample));
    assert other.Ok? && other.value.id == 1;
    assert state.CountAll() == 2;
    assert state.ListNfts(alice).value == [first.value];
  }
}
