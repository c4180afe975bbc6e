/** The three browser-storage keys the page reads and writes. Each key holds a
    decoded value, or nothing when the key was never written; text encoding is
    not modelled. */
module Storage {
  import opened Wrappers
  import opened Records

  class BrowserStorage {
    /** Key "isSuccess". */
    var isSuccess: Option<string>
    /** Key "attestedCollectionsCache": edition addresses attested from this browser. */
    var attestedCollections: Option<seq<string>>
    /** Key "collectionsToAttestCache": collections waiting to be attested. */
    var collectionsToAttest: Option<seq<Collection>>

    /** Storage in which no key has been written. */
    constructor ()
      ensures isSuccess.None? && attestedCollections.None? && collectionsToAttest.None?
    {
      isSuccess := None;
      attestedCollections := None;
      collectionsToAttest := None;
    }

    /** The attested list as the page reads it: a missing key reads as `[]`. */
    function AttestedList(): (list: seq<string>)
      reads this
      ensures attestedCollections.Some? ==> list == attestedCollections.value
      ensures attestedCollections.None? ==> list == []
    {
      attestedCollections.GetOr([])
    }

    /** The "to attest" list as the page reads it: a missing key reads as `[]`. */
    function ToAttestList(): (list: seq<Collection>)
      reads this
      ensures collectionsToAttest.Some? ==> list == collectionsToAttest.value
      ensures collectionsToAttest.None? ==> list == []
    {
      collectionsToAttest.GetOr([])
    }

    /** What a row does once its vote transaction has succeeded: set "isSuccess",
        read the attested list, push the edition address and write the list back.
        The address is appended even when it is already present. */
    method RecordAttested(editionAddress: string)
      modifies this
      ensures isSuccess == Some("true")
      ensures attestedCollections == Some(old(AttestedList()) + [editionAddress])
      ensures |AttestedList()| == |old(AttestedList())| + 1
      ensures AttestedList()[..|old(AttestedList())|] == old(AttestedList())
      ensures AttestedList()[|old(AttestedList())|] == editionAddress
      ensures multiset(AttestedList())[editionAddress] == multiset(old(AttestedList()))[editionAddress] + 1
      ensures collectionsToAttest == old(collectionsToAttest)
    {
      isSuccess := Some("true");
      var cache := AttestedList();
      cache := cache + [editionAddress];
      attestedCollections := Some(cache);
    }
  }

  /** Two successful attestations of the same collection leave its address in the
      attested list twice: the list is not deduplicated. */
  method AttestTwice(editionAddress: string) returns (list: seq<string>)
    ensures list == [editionAddress, editionAddress]
  {
    var storage := new BrowserStorage();
    storage.RecordAttested(editionAddress);
    storage.RecordAttested(editionAddress);
    list := storage.AttestedList();
  }
}
