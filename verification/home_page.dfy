/** The home page: on mount it fetches all projects and the projects owned by the
    connected account, gives each owned project the image of its entry in the full
    list, appends the cached "to attest" collections and stops loading. The two
    fetches' results are parameters of the model. */
module HomePage {
  import opened Wrappers
  import opened Records
  import opened Storage

  /** `merged` is the spread copy of `owned` whose image URI is that of the first
      project with id equal to the owned entry's edition address; every other
      field is kept. */
  ghost predicate ImageAttached(allProjects: seq<Project>, owned: Collection, merged: Collection)
  {
    && merged == owned.(imageURI := merged.imageURI)
    && exists i :: IsFirstMatch(allProjects, owned.editionAddress, i)
                   && merged.imageURI == allProjects[i].imageURI
  }

  /** Every owned entry has a project of the same id in the full list. */
  ghost predicate AllMatched(owned: seq<Collection>, allProjects: seq<Project>)
  {
    forall k :: 0 <= k < |owned| ==> HasProject(allProjects, owned[k].editionAddress)
  }

  /** The `map` over the owned projects. Reading the image of a project that the
      lookup did not find throws, which aborts the whole effect: that fault is the
      `None` result. */
  function AttachImages(owned: seq<Collection>, allProjects: seq<Project>): (r: Option<seq<Collection>>)
    ensures r.Some? <==> AllMatched(owned, allProjects)
    ensures r.Some? ==>
      && |r.value| == |owned|
      && forall k :: 0 <= k < |owned| ==> ImageAttached(allProjects, owned[k], r.value[k])
  {
    if |owned| == 0 then Some([])
    else match FindProject(allProjects, owned[0].editionAddress)
      case None => None
      case Some(i) =>
        var head := owned[0].(imageURI := allProjects[i].imageURI);
        assert ImageAttached(allProjects, owned[0], head);
        match AttachImages(owned[1..], allProjects)
        case None =>
          assert !AllMatched(owned, allProjects) by {
            var k :| 0 <= k < |owned[1..]| && !HasProject(allProjects, owned[1..][k].editionAddress);
            assert owned[1..][k] == owned[k + 1];
          }
          None
        case Some(rest) =>
          var r := [head] + rest;
          assert forall k :: 1 <= k < |owned| ==> owned[k] == owned[1..][k - 1] && r[k] == rest[k - 1];
          Some(r)
  }

  /** The owned projects with their images, followed by the cached "to attest"
      collections; `None` when some owned project has no entry in the full list. */
  function MergeCollections(owned: seq<Collection>, allProjects: seq<Project>, toAttest: seq<Collection>)
    : (r: Option<seq<Collection>>)
    ensures r.Some? <==> AllMatched(owned, allProjects)
    ensures r.Some? ==>
      && |r.value| == |owned| + |toAttest|
      && (forall k :: 0 <= k < |owned| ==> ImageAttached(allProjects, owned[k], r.value[k]))
      && r.value[|owned|..] == toAttest
  {
    match AttachImages(owned, allProjects)
    case None => None
    case Some(withImages) => Some(withImages + toAttest)
  }

  /** The page's state. */
  class HomePageState {
    var loadingProjects: bool
    var allProjects: seq<Project>
    var projectsByOwner: seq<Collection>

    /** A page that has just mounted: loading, with both lists empty. */
    constructor ()
      ensures loadingProjects && allProjects == [] && projectsByOwner == []
    {
      loadingProjects := true;
      allProjects := [];
      projectsByOwner := [];
    }

    /** The page's mount effect, given what the two fetches returned. The full
        list is stored first; when the merge faults nothing further happens and
        the page stays in its loading state. */
    method RunMountEffect(fetchedAll: seq<Project>, fetchedOwned: seq<Collection>, storage: BrowserStorage)
      modifies this
      ensures allProjects == fetchedAll
      ensures var merged := MergeCollections(fetchedOwned, fetchedAll, storage.ToAttestList());
        if merged.Some? then !loadingProjects && projectsByOwner == merged.value
        else loadingProjects == old(loadingProjects) && projectsByOwner == old(projectsByOwner)
    {
      allProjects := fetchedAll;
      var toAttest := storage.ToAttestList();
      var merged := MergeCollections(fetchedOwned, fetchedAll, toAttest);
      if merged.Some? {
        projectsByOwner := merged.value;
        loadingProjects := false;
      }
    }

    /** The rows the table shows, or nothing while the loading placeholder is shown. */
    function Rows(): (rows: Option<seq<Collection>>)
      reads this
      ensures rows.None? <==> loadingProjects
      ensures rows.Some? ==> rows.value == projectsByOwner
    {
      if loadingProjects then None else Some(projectsByOwner)
    }
  }

  /** Mount a page and run its effect: the table appears exactly when every owned
      project has an entry in the full list, and then holds the owned projects in
      order followed by the cached collections. */
  method MountPage(fetchedAll: seq<Project>, fetchedOwned: seq<Collection>, storage: BrowserStorage)
    returns (rows: Option<seq<Collection>>)
    ensures rows.Some? <==> AllMatched(fetchedOwned, fetchedAll)
    ensures rows.Some? ==>
      && |rows.value| == |fetchedOwned| + |storage.ToAttestList()|
      && (forall k :: 0 <= k < |fetchedOwned| ==>
            rows.value[k].editionAddress == fetchedOwned[k].editionAddress &&
            rows.value[k].tokenId == fetchedOwned[k].tokenId)
      && rows.value[|fetchedOwned|..] == storage.ToAttestList()
  {
    var page := new HomePageState();
    page.RunMountEffect(fetchedAll, fetchedOwned, storage);
    rows := page.Rows();
    if rows.Some? {
      forall k | 0 <= k < |fetchedOwned|
        ensures rows.value[k].editionAddress == fetchedOwned[k].editionAddress
        ensures rows.value[k].tokenId == fetchedOwned[k].tokenId
      {
        assert ImageAttached(fetchedAll, fetchedOwned[k], rows.value[k]);
      }
    }
  }
}
