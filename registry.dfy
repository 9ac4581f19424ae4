/** Records of the voice-NFT registry and the pure queries over a list of them.

    A record is owned by a principal, carries a display name and an opaque
    voice fingerprint (the registry never looks inside it, so its element type
    is a type parameter), and has an id assigned by the registry.
 */
module Registry {

  /** A principal is compared by its bytes only. */
  datatype Principal = Principal(bytes: seq<bv8>)

  datatype VoiceNft<F> = VoiceNft(id: nat, owner: Principal, voiceFingerprint: seq<F>, name: string)

  /** The argument of a registration call. */
  datatype RegisterArgs<F> = RegisterArgs(name: string, data: seq<F>)

  datatype LogoResult = LogoResult(logoType: string, data: string)

  datatype Option<T> = None | Some(value: T)

  /** The canister's `Result<T, String>`. */
  datatype Result<T> = Ok(value: T) | Err(error: string)

  const DuplicateNameError: string := "You have already registered an NFT for this name."

  /** Does `owner` already hold a record called `name`?  A left-to-right scan
      that stops at the first hit, as an iterator's `any` does. */
  function HasNft<F>(nfts: seq<VoiceNft<F>>, owner: Principal, name: string): (b: bool)
    ensures b <==> exists i :: 0 <= i < |nfts| && nfts[i].owner == owner && nfts[i].name == name
  {
    if nfts == [] then false
    else if nfts[0].owner == owner && nfts[0].name == name then true
    else
      var b := HasNft(nfts[1..], owner, name);
      assert forall i :: 0 < i < |nfts| ==> nfts[i] == nfts[1..][i - 1];
      b
  }

  /** The records of `owner`, in storage order (an iterator `filter`). */
  function OwnedBy<F>(nfts: seq<VoiceNft<F>>, owner: Principal): (r: seq<VoiceNft<F>>)
    ensures |r| <= |nfts|
  {
    if nfts == [] then []
    else if nfts[0].owner == owner then [nfts[0]] + OwnedBy(nfts[1..], owner)
    else OwnedBy(nfts[1..], owner)
  }

  /** A listing holds exactly the owner's stored records, and is empty
      exactly when the owner has none. */
  lemma {:induction false} OwnedByMembers<F>(nfts: seq<VoiceNft<F>>, owner: Principal)
    ensures forall k :: 0 <= k < |OwnedBy(nfts, owner)| ==> OwnedBy(nfts, owner)[k] in nfts && OwnedBy(nfts, owner)[k].owner == owner
    ensures forall i :: 0 <= i < |nfts| && nfts[i].owner == owner ==> nfts[i] in OwnedBy(nfts, owner)
    ensures OwnedBy(nfts, owner) == [] <==> forall i :: 0 <= i < |nfts| ==> nfts[i].owner != owner
  {
    if nfts != [] {
      OwnedByMembers(nfts[1..], owner);
      assert forall i :: 0 < i < |nfts| ==> nfts[i] == nfts[1..][i - 1];
    }
  }

  /** `Vec::insert`: place `x` at index `i`, shifting the later elements up.
      The index must not exceed the length (the vector panics otherwise). */
  function Insert<T>(s: seq<T>, i: nat, x: T): (r: seq<T>)
    requires i <= |s|
    ensures |r| == |s| + 1 && r[i] == x
    ensures forall j :: 0 <= j < i ==> r[j] == s[j]
    ensures forall j :: i < j < |r| ==> r[j] == s[j - 1]
  {
    s[..i] + [x] + s[i..]
  }

  /** Inserting at the current length is appending. */
  lemma InsertAtEndAppends<T>(s: seq<T>, x: T)
    ensures Insert(s, |s|, x) == s + [x]
  {
    var r := Insert(s, |s|, x);
    assert forall j :: 0 <= j < |r| ==> r[j] == (s + [x])[j];
  }

  /** Every record's id is its position in the list. */
  ghost predicate IdsArePositions<F>(nfts: seq<VoiceNft<F>>)
  {
    forall i :: 0 <= i < |nfts| ==> nfts[i].id == i
  }

  /** No principal holds two records with the same name. */
  ghost predicate UniqueOwnerName<F>(nfts: seq<VoiceNft<F>>)
  {
    forall i, j :: 0 <= i < j < |nfts| && nfts[i].owner == nfts[j].owner ==> nfts[i].name != nfts[j].name
  }

  /** Ids strictly increase along the list. */
  ghost predicate IdsIncreasing<F>(nfts: seq<VoiceNft<F>>)
  {
    forall i, j :: 0 <= i < j < |nfts| ==> nfts[i].id < nfts[j].id
  }

  /** Names within the list are pairwise different. */
  ghost predicate NamesDistinct<F>(nfts: seq<VoiceNft<F>>)
  {
    forall i, j :: 0 <= i < j < |nfts| ==> nfts[i].name != nfts[j].name
  }

  ghost function IdSet<F>(nfts: seq<VoiceNft<F>>): set<nat>
  {
    set x | x in nfts :: x.id
  }

  /** Filtering distributes over concatenation, so it keeps storage order. */
  lemma {:induction false} OwnedByAppend<F>(a: seq<VoiceNft<F>>, b: seq<VoiceNft<F>>, owner: Principal)
    ensures OwnedBy(a + b, owner) == OwnedBy(a, owner) + OwnedBy(b, owner)
  {
    if a == [] {
      assert a + b == b;
    } else {
      assert (a + b)[0] == a[0] && (a + b)[1..] == a[1..] + b;
      OwnedByAppend(a[1..], b, owner);
    }
  }

  /** What one appended record does to an owner's listing. */
  lemma OwnedByAppendOne<F>(nfts: seq<VoiceNft<F>>, x: VoiceNft<F>, owner: Principal)
    ensures OwnedBy(nfts + [x], owner) == OwnedBy(nfts, owner) + (if x.owner == owner then [x] else [])
  {
    OwnedByAppend(nfts, [x], owner);
    assert [x][1..] == [];
  }

  /** Appending keeps ids equal to positions exactly when the new id is the old length. */
  lemma AppendKeepsIdsArePositions<F>(nfts: seq<VoiceNft<F>>, x: VoiceNft<F>)
    ensures IdsArePositions(nfts + [x]) <==> IdsArePositions(nfts) && x.id == |nfts|
  {
    if IdsArePositions(nfts + [x]) {
      assert (nfts + [x])[|nfts|] == x;
      assert forall i :: 0 <= i < |nfts| ==> (nfts + [x])[i] == nfts[i];
    }
  }

  /** Appending keeps (owner, name) pairs unique exactly when the owner has
      no record of that name yet. */
  lemma AppendKeepsUniqueOwnerName<F>(nfts: seq<VoiceNft<F>>, x: VoiceNft<F>)
    requires UniqueOwnerName(nfts)
    ensures UniqueOwnerName(nfts + [x]) <==> !HasNft(nfts, x.owner, x.name)
  {
    var s := nfts + [x];
    assert forall i :: 0 <= i < |nfts| ==> s[i] == nfts[i];
    assert s[|nfts|] == x;
    if HasNft(nfts, x.owner, x.name) {
      var i :| 0 <= i < |nfts| && nfts[i].owner == x.owner && nfts[i].name == x.name;
      assert s[i].owner == s[|nfts|].owner && s[i].name == s[|nfts|].name;
    }
  }

  /** Ids that are positions are strictly increasing, hence distinct. */
  lemma IdsArePositionsIncrease<F>(nfts: seq<VoiceNft<F>>)
    requires IdsArePositions(nfts)
    ensures IdsIncreasing(nfts)
  {
  }

  /** When ids are positions there are exactly as many distinct ids as
      records, and every id is below the number of records. */
  lemma {:induction false} IdSetSize<F>(nfts: seq<VoiceNft<F>>)
    ensures IdsArePositions(nfts) ==> |IdSet(nfts)| == |nfts|
    ensures IdsArePositions(nfts) ==> forall id :: id in IdSet(nfts) ==> id < |nfts|
  {
    if IdsArePositions(nfts) && nfts != [] {
      var n := |nfts| - 1;
      var init := nfts[..n];
      assert nfts == init + [nfts[n]];
      assert IdsArePositions(init) by {
        forall i | 0 <= i < |init| ensures init[i].id == i {
          assert init[i] == nfts[i];
        }
      }
      IdSetSize(init);
      assert IdSet(nfts) == IdSet(init) + {n};
      assert n !in IdSet(init);
    }
  }

  /** The tail of a list with increasing ids has increasing ids, all above the head's. */
  lemma TailIdsIncreasing<F>(nfts: seq<VoiceNft<F>>)
    requires nfts != [] && IdsIncreasing(nfts)
    ensures IdsIncreasing(nfts[1..])
    ensures forall k :: 0 <= k < |nfts[1..]| ==> nfts[0].id < nfts[1..][k].id
  {
    var tail := nfts[1..];
    forall i, j | 0 <= i < j < |tail| ensures tail[i].id < tail[j].id {
      assert tail[i] == nfts[i + 1] && tail[j] == nfts[j + 1];
    }
    forall k | 0 <= k < |tail| ensures nfts[0].id < tail[k].id {
      assert tail[k] == nfts[k + 1];
    }
  }

  /** Putting a record below all ids in front of a list with increasing ids keeps them increasing. */
  lemma ConsIdsIncreasing<F>(x: VoiceNft<F>, s: seq<VoiceNft<F>>)
    requires IdsIncreasing(s)
    requires forall k :: 0 <= k < |s| ==> x.id < s[k].id
    ensures IdsIncreasing([x] + s)
  {
    var r := [x] + s;
    forall i, j | 0 <= i < j < |r| ensures r[i].id < r[j].id {
      assert r[j] == s[j - 1];
      if i > 0 {
        assert r[i] == s[i - 1];
      }
    }
  }

  /** A listing keeps the order of ids. */
  lemma {:induction false} OwnedByKeepsIdsIncreasing<F>(nfts: seq<VoiceNft<F>>, owner: Principal)
    requires IdsIncreasing(nfts)
    ensures IdsIncreasing(OwnedBy(nfts, owner))
  {
    if nfts != [] {
      var tail := nfts[1..];
      TailIdsIncreasing(nfts);
      OwnedByKeepsIdsIncreasing(tail, owner);
      if nfts[0].owner == owner {
        var rest := OwnedBy(tail, owner);
        OwnedByMembers(tail, owner);
        forall k | 0 <= k < |rest| ensures nfts[0].id < rest[k].id {
          var m :| 0 <= m < |tail| && tail[m] == rest[k];
        }
        ConsIdsIncreasing(nfts[0], rest);
      }
    }
  }

  /** The tail of a list with unique (owner, name) pairs keeps them unique, and
      none of the head owner's later records repeats the head's name. */
  lemma TailUniqueOwnerName<F>(nfts: seq<VoiceNft<F>>)
    requires nfts != [] && UniqueOwnerName(nfts)
    ensures UniqueOwnerName(nfts[1..])
    ensures forall k :: 0 <= k < |nfts[1..]| && nfts[1..][k].owner == nfts[0].owner ==> nfts[1..][k].name != nfts[0].name
  {
    var tail := nfts[1..];
    forall i, j | 0 <= i < j < |tail| && tail[i].owner == tail[j].owner ensures tail[i].name != tail[j].name {
      assert tail[i] == nfts[i + 1] && tail[j] == nfts[j + 1];
    }
    forall k | 0 <= k < |tail| && tail[k].owner == nfts[0].owner ensures tail[k].name != nfts[0].name {
      assert tail[k] == nfts[k + 1];
    }
  }

  /** Putting a record whose name is new in front of a list of distinct names keeps them distinct. */
  lemma ConsNamesDistinct<F>(x: VoiceNft<F>, s: seq<VoiceNft<F>>)
    requires NamesDistinct(s)
    requires forall k :: 0 <= k < |s| ==> x.name != s[k].name
    ensures NamesDistinct([x] + s)
  {
    var r := [x] + s;
    forall i, j | 0 <= i < j < |r| ensures r[i].name != r[j].name {
      assert r[j] == s[j - 1];
      if i > 0 {
        assert r[i] == s[i - 1];
      }
    }
  }

  /** Under unique (owner, name) pairs, one owner's listing never shows a name twice. */
  lemma {:induction false} OwnedByNamesDistinct<F>(nfts: seq<VoiceNft<F>>, owner: Principal)
    requires UniqueOwnerName(nfts)
    ensures NamesDistinct(OwnedBy(nfts, owner))
  {
    if nfts != [] {
      var tail := nfts[1..];
      TailUniqueOwnerName(nfts);
      OwnedByNamesDistinct(tail, owner);
      if nfts[0].owner == owner {
        var rest := OwnedBy(tail, owner);
        OwnedByMembers(tail, owner);
        forall k | 0 <= k < |rest| ensures nfts[0].name != rest[k].name {
          var m :| 0 <= m < |tail| && tail[m] == rest[k];
        }
        ConsNamesDistinct(nfts[0], rest);
      }
    }
  }
}
