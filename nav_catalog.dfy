/** The sidebar's route catalog and the rule that turns the current URL path into
    the active navigation group and item (`NavExpandableList`). */
module NavCatalog {
  import opened Substring

  /** One entry of the catalog: the key it is stored under, the path it stands
      for, the nav group and nav item it selects, and its display name. */
  datatype RouteEntry = RouteEntry(key: string, path: string, groupId: string, itemId: string, name: string)

  /** An active (group, item) pair; both empty means nothing is selected. */
  datatype NavSelection = NavSelection(group: string, item: string)

  const NoSelection := NavSelection("", "")

  function SelectionOf(e: RouteEntry): NavSelection
  {
    NavSelection(e.groupId, e.itemId)
  }

  /** The directory every catalog path lives under. */
  const Root := "/multicloud/"

  /** The six entries, in the order their keys are enumerated (insertion order).
      Each path is `/multicloud/` followed by the page name. */
  const Catalog: seq<RouteEntry> := [
    RouteEntry("home", Root + "welcome", "home", "home_welcome", "Home"),
    RouteEntry("overview", Root + "overview", "observe", "observe_overview", "Overview"),
    RouteEntry("clusters", Root + "clusters", "automate", "automate_clusters", "Clusters"),
    RouteEntry("baremetal", Root + "bare-metal-assets", "automate", "automate_baremetal", "Bare metal assets"),
    RouteEntry("applications", Root + "applications", "manage", "manage_applications", "Manage applications"),
    RouteEntry("grc", Root + "policies", "grc", "grc_govern_risk", "Govern risk")
  ]

  /** An entry applies when the path is non-empty (JavaScript truthiness) and the
      entry's path occurs anywhere inside it. */
  predicate Matches(urlpath: string, e: RouteEntry)
  {
    urlpath != "" && Contains(urlpath, e.path)
  }

  /** The resolved pair: scanning `catalog` in order, every matching entry overwrites
      the pair, so the scan of a prefix of the catalog is extended by its last entry. */
  function Resolve(urlpath: string, catalog: seq<RouteEntry>): NavSelection
  {
    if catalog == [] then NoSelection
    else
      var last := catalog[|catalog| - 1];
      if Matches(urlpath, last) then SelectionOf(last)
      else Resolve(urlpath, catalog[..|catalog| - 1])
  }

  /** The resolver loop: starts from the empty pair and lets each matching entry
      overwrite both fields. */
  method ResolveActiveRoute(urlpath: string, catalog: seq<RouteEntry>) returns (group: string, item: string)
    ensures NavSelection(group, item) == Resolve(urlpath, catalog)
  {
    group, item := "", "";
    var i := 0;
    while i < |catalog|
      invariant 0 <= i <= |catalog|
      invariant NavSelection(group, item) == Resolve(urlpath, catalog[..i])
    {
      var n := catalog[i];
      if urlpath != "" && IndexOf(urlpath, n.path) != -1 {
        group := n.groupId;
        item := n.itemId;
      }
      assert catalog[..i + 1][..i] == catalog[..i];
      i := i + 1;
    }
    assert catalog[..i] == catalog;
  }

  /** No matching entry leaves the pair empty. */
  lemma {:induction false} ResolveNoMatch(urlpath: string, catalog: seq<RouteEntry>)
    requires forall j :: 0 <= j < |catalog| ==> !Matches(urlpath, catalog[j])
    ensures Resolve(urlpath, catalog) == NoSelection
  {
    if catalog != [] {
      var init := catalog[..|catalog| - 1];
      assert forall j :: 0 <= j < |init| ==> init[j] == catalog[j];
      ResolveNoMatch(urlpath, init);
    }
  }

  /** The empty path resolves to the empty pair, whatever the catalog holds. */
  lemma ResolveEmptyPath(catalog: seq<RouteEntry>)
    ensures Resolve("", catalog) == NoSelection
  {
    ResolveNoMatch("", catalog);
  }

  /** Last match wins: the entry with the highest index among those that match
      decides the pair, whatever earlier entries also match. */
  lemma {:induction false} ResolveLastMatch(urlpath: string, catalog: seq<RouteEntry>, k: nat)
    requires k < |catalog| && Matches(urlpath, catalog[k])
    requires forall j :: k < j < |catalog| ==> !Matches(urlpath, catalog[j])
    ensures Resolve(urlpath, catalog) == SelectionOf(catalog[k])
  {
    if k < |catalog| - 1 {
      var init := catalog[..|catalog| - 1];
      assert forall j :: 0 <= j < |init| ==> init[j] == catalog[j];
      ResolveLastMatch(urlpath, init, k);
    }
  }

  /** The index of the last entry that matches, or -1 when none does. */
  function LastMatchIndex(urlpath: string, catalog: seq<RouteEntry>): (k: int)
    ensures -1 <= k < |catalog|
    ensures k >= 0 ==> Matches(urlpath, catalog[k])
    ensures forall j :: k < j < |catalog| ==> !Matches(urlpath, catalog[j])
  {
    if catalog == [] then -1
    else if Matches(urlpath, catalog[|catalog| - 1]) then |catalog| - 1
    else
      var init := catalog[..|catalog| - 1];
      assert forall j :: 0 <= j < |init| ==> init[j] == catalog[j];
      LastMatchIndex(urlpath, init)
  }

  /** The pair never mixes entries: it is empty when no entry matches, and
      otherwise the group and item of the last matching entry. */
  lemma ResolveFromOneEntry(urlpath: string, catalog: seq<RouteEntry>)
    ensures var k := LastMatchIndex(urlpath, catalog);
      Resolve(urlpath, catalog) == if k == -1 then NoSelection else SelectionOf(catalog[k])
  {
    var k := LastMatchIndex(urlpath, catalog);
    if k == -1 {
      ResolveNoMatch(urlpath, catalog);
    } else {
      ResolveLastMatch(urlpath, catalog, k);
    }
  }

  /** Every entry of the catalog has a non-empty group and item, and item ids are unique. */
  lemma CatalogWellFormed()
    ensures forall j :: 0 <= j < |Catalog| ==> Catalog[j].groupId != "" && Catalog[j].itemId != ""
    ensures forall j, k :: 0 <= j < k < |Catalog| ==> Catalog[j].itemId != Catalog[k].itemId
  {
  }

  /** With the real catalog, the pair is empty exactly when no entry matches. */
  lemma CatalogResolvesEmptyIffNoMatch(urlpath: string)
    ensures Resolve(urlpath, Catalog) == NoSelection
            <==> forall j :: 0 <= j < |Catalog| ==> !Matches(urlpath, Catalog[j])
  {
    ResolveFromOneEntry(urlpath, Catalog);
    var k := LastMatchIndex(urlpath, Catalog);
    if k != -1 {
      CatalogWellFormed();
      assert Catalog[k].groupId != "";
    }
  }

  lemma RootSlashes()
    ensures forall j :: 0 <= j < |Root| && Root[j] == '/' ==> j == 0 || j == 11
  {
  }

  /** Below the root, one path segment contains another root path exactly when
      that one's segment is a prefix of it: the slashes of the root cannot line
      up anywhere but at position 0. */
  lemma {:induction false} SameRootContains(t: string, u: string)
    requires '/' !in t
    ensures Contains(Root + t, Root + u) <==> |u| <= |t| && t[..|u|] == u
  {
    var s, n := Root + t, Root + u;
    ContainsIffOccurs(s, n);
    if |u| <= |t| && t[..|u|] == u {
      assert s[0..|n|] == n;
      assert OccursAt(s, n, 0);
    }
    if Contains(s, n) {
      var i: nat :| OccursAt(s, n, i);
      assert forall j :: 0 <= j < |n| ==> s[i + j] == n[j];
      assert forall j :: 12 <= j < |s| ==> s[j] == t[j - 12];
      assert forall j :: 0 <= j < 12 ==> s[j] == Root[j];
      assert forall j :: 12 <= j < |s| ==> s[j] != '/';
      assert n[0] == '/' && n[11] == '/';
      assert s[i] == '/' && s[i + 11] == '/';
      RootSlashes();
      assert i == 0;
      assert t[..|u|] == s[12..|n|] == u;
    }
  }

  /** `/multicloud/bare-metal-assets` selects the bare metal item of the automate group. */
  lemma ResolveBareMetal(urlpath: string)
    requires urlpath == Root + "bare-metal-assets"
    ensures Resolve(urlpath, Catalog) == NavSelection("automate", "automate_baremetal")
  {
    var t := "bare-metal-assets";
    SameRootContains(t, "bare-metal-assets");
    SameRootContains(t, "applications");
    assert t[..12][0] != "applications"[0];
    SameRootContains(t, "policies");
    assert t[..8][0] != "policies"[0];
    ResolveLastMatch(urlpath, Catalog, 3);
  }

  /** `/multicloud/overview` selects the overview item of the observe group. */
  lemma ResolveOverview(urlpath: string)
    requires urlpath == Root + "overview"
    ensures Resolve(urlpath, Catalog) == NavSelection("observe", "observe_overview")
  {
    var t := "overview";
    SameRootContains(t, "overview");
    SameRootContains(t, "clusters");
    assert t[..8][0] != "clusters"[0];
    SameRootContains(t, "bare-metal-assets");
    SameRootContains(t, "applications");
    SameRootContains(t, "policies");
    assert t[..8][0] != "policies"[0];
    ResolveLastMatch(urlpath, Catalog, 1);
  }

  /** A path under the root that names no catalog page selects nothing. */
  lemma ResolveUnknown(urlpath: string)
    requires urlpath == Root + "unknown"
    ensures Resolve(urlpath, Catalog) == NoSelection
  {
    var t := "unknown";
    SameRootContains(t, "welcome");
    assert t[..7][0] != "welcome"[0];
    SameRootContains(t, "overview");
    SameRootContains(t, "clusters");
    SameRootContains(t, "bare-metal-assets");
    SameRootContains(t, "applications");
    SameRootContains(t, "policies");
    ResolveNoMatch(urlpath, Catalog);
  }

  /** The policies entry comes last, so any path containing its path selects the
      governance item, wherever in the path it sits and whatever else matches. */
  lemma ResolvePoliciesAnywhere(urlpath: string)
    requires Contains(urlpath, Root + "policies")
    ensures Resolve(urlpath, Catalog) == NavSelection("grc", "grc_govern_risk")
  {
    ResolveLastMatch(urlpath, Catalog, 5);
  }

  /** Matching is containment, not a prefix test, and the later entry wins: a path
      that starts with the welcome page's path and mentions the policies path
      further on matches both entries and selects the policies one. */
  lemma ResolveLaterEntryWins(urlpath: string, middle: string)
    requires urlpath == Root + "welcome" + middle + Root + "policies"
    ensures Matches(urlpath, Catalog[0]) && Matches(urlpath, Catalog[5])
    ensures Resolve(urlpath, Catalog) == NavSelection("grc", "grc_govern_risk")
  {
    var home, grc := Root + "welcome", Root + "policies";
    assert urlpath == home + middle + grc;
    ContainsEnds(home, middle, grc);
    ResolvePoliciesAnywhere(urlpath);
  }
}
