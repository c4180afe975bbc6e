/** The records the page receives from the indexer and from browser storage,
    and the `Array.prototype.find` lookup it runs over the full project list. */
module Records {
  import opened Wrappers

  /** A JavaScript value where the page may see a string, `null` or `undefined`
      (an absent property reads as `undefined`). */
  datatype JsValue = Undefined | Null | Str(text: string)

  /** The vault contract attached to a project by the indexer. */
  datatype Vault = Vault(id: string)

  /** An entry of the full project list: its id is the edition address. */
  datatype Project = Project(id: string, vault: Vault, imageURI: JsValue)

  /** A collection row: an owned project or a cached "to attest" entry. */
  datatype Collection = Collection(editionAddress: string, tokenId: string, imageURI: JsValue)

  /** Some project of `all` has id `address`. */
  ghost predicate HasProject(all: seq<Project>, address: string)
  {
    exists i :: 0 <= i < |all| && all[i].id == address
  }

  /** `i` is the index of the first project of `all` whose id is `address`. */
  ghost predicate IsFirstMatch(all: seq<Project>, address: string, i: int)
  {
    0 <= i < |all| && all[i].id == address &&
    forall j :: 0 <= j < i ==> all[j].id != address
  }

  /** `all.find(p => p.id === address)`, as the index of the element found:
      the first project with that id, or nothing when no project has it. */
  function FindProject(all: seq<Project>, address: string): (r: Option<nat>)
    ensures r.None? <==> !HasProject(all, address)
    ensures r.Some? ==> IsFirstMatch(all, address, r.value)
  {
    if |all| == 0 then None
    else if all[0].id == address then Some(0)
    else
      match FindProject(all[1..], address)
      case None => None
      case Some(k) =>
        assert all[k + 1] == all[1..][k];
        Some(k + 1)
  }
}
