/** The header shell's interaction state: the active navigation group and item
    (seeded by the route resolver, then changed by `select`), and five open/closed
    flags, each flipped by its own trigger. */
module HeaderShell {
  import opened NavCatalog

  /** An argument of `select` that may be left undefined. */
  datatype Option<T> = None | Some(value: T)

  /** The open/closed flags: the perspective switcher, the sidebar, the user
      menu, the About menu and the About modal. */
  datatype Panel = Switcher | Sidebar | UserMenu | AboutMenu | AboutModal

  /** A snapshot of the whole shell state. */
  datatype Shell = Shell(
    activeGroup: string,
    activeItem: string,
    switcherOpen: bool,
    sidebarOpen: bool,
    userMenuOpen: bool,
    aboutMenuOpen: bool,
    aboutModalOpen: bool)

  function IsOpen(s: Shell, p: Panel): bool
  {
    match p
    case Switcher => s.switcherOpen
    case Sidebar => s.sidebarOpen
    case UserMenu => s.userMenuOpen
    case AboutMenu => s.aboutMenuOpen
    case AboutModal => s.aboutModalOpen
  }

  /** The active group is `groupId`. */
  predicate GroupSelected(s: Shell, groupId: string)
  {
    s.activeGroup == groupId
  }

  /** The only groups drawn as expandable sections; the home, applications and
      policies items sit directly in the nav list, with no group drawn around them. */
  const ExpandableGroups: set<string> := {"observe", "automate"}

  /** An expandable group is drawn active and expanded exactly when it is the active group. */
  predicate GroupExpanded(s: Shell, groupId: string)
  {
    groupId in ExpandableGroups && s.activeGroup == groupId
  }

  /** A nav item is highlighted exactly when it is the active item. */
  predicate ItemHighlighted(s: Shell, itemId: string)
  {
    s.activeItem == itemId
  }

  /** The nav fields hold the (group, item) pair resolved from `urlpath`; the
      sidebar is open and every other flag is closed. */
  function Initial(urlpath: string): (r: Shell)
    ensures forall p :: IsOpen(r, p) <==> p == Sidebar
  {
    var sel := Resolve(urlpath, Catalog);
    Shell(sel.group, sel.item, false, true, false, false, false)
  }

  /** `select`: each id that is supplied replaces its field; an omitted one leaves
      its field alone, and no flag changes. */
  function SelectNav(s: Shell, groupId: Option<string>, itemId: Option<string>): (r: Shell)
    ensures groupId.Some? ==> GroupSelected(r, groupId.value)
    ensures groupId.None? ==> r.activeGroup == s.activeGroup
    ensures itemId.Some? ==> ItemHighlighted(r, itemId.value)
    ensures itemId.None? ==> r.activeItem == s.activeItem
    ensures forall p :: IsOpen(r, p) == IsOpen(s, p)
  {
    var s1 := if groupId.Some? then s.(activeGroup := groupId.value) else s;
    if itemId.Some? then s1.(activeItem := itemId.value) else s1
  }

  /** A trigger negates its own flag and nothing else. */
  function Flip(s: Shell, p: Panel): (r: Shell)
    ensures IsOpen(r, p) == !IsOpen(s, p)
    ensures forall q :: q != p ==> IsOpen(r, q) == IsOpen(s, q)
    ensures r.activeGroup == s.activeGroup && r.activeItem == s.activeItem
  {
    match p
    case Switcher => s.(switcherOpen := !s.switcherOpen)
    case Sidebar => s.(sidebarOpen := !s.sidebarOpen)
    case UserMenu => s.(userMenuOpen := !s.userMenuOpen)
    case AboutMenu => s.(aboutMenuOpen := !s.aboutMenuOpen)
    case AboutModal => s.(aboutModalOpen := !s.aboutModalOpen)
  }

  /** Two clicks on a trigger restore the state. */
  lemma FlipTwice(s: Shell, p: Panel)
    ensures Flip(Flip(s, p), p) == s
  {
  }

  /** Flags are independent: the order in which two triggers fire does not matter. */
  lemma FlipsCommute(s: Shell, p: Panel, q: Panel)
    ensures Flip(Flip(s, p), q) == Flip(Flip(s, q), p)
  {
  }

  /** Selection and the flags are independent axes. */
  lemma SelectFlipCommute(s: Shell, groupId: Option<string>, itemId: Option<string>, p: Panel)
    ensures SelectNav(Flip(s, p), groupId, itemId) == Flip(SelectNav(s, groupId, itemId), p)
  {
  }

  /** A selection carrying neither id changes nothing. */
  lemma SelectNothing(s: Shell)
    ensures SelectNav(s, None, None) == s
  {
  }

  /** Repeating a selection changes nothing more. */
  lemma SelectIdempotent(s: Shell, groupId: Option<string>, itemId: Option<string>)
    ensures SelectNav(SelectNav(s, groupId, itemId), groupId, itemId) == SelectNav(s, groupId, itemId)
  {
  }

  /** Selecting a group and then an item is the same as selecting both at once. */
  lemma SelectGroupThenItem(s: Shell, groupId: string, itemId: string)
    ensures SelectNav(SelectNav(s, Some(groupId), None), None, Some(itemId))
            == SelectNav(s, Some(groupId), Some(itemId))
  {
  }

  /** At most one catalog item is highlighted at a time, since item ids are unique. */
  lemma AtMostOneHighlighted(s: Shell, j: nat, k: nat)
    requires j < |Catalog| && k < |Catalog|
    requires ItemHighlighted(s, Catalog[j].itemId) && ItemHighlighted(s, Catalog[k].itemId)
    ensures j == k
  {
    CatalogWellFormed();
  }

  /** The initial pair comes from one catalog entry: either nothing is highlighted
      and no group is selected, or the highlighted item's own group is the selected one. */
  lemma InitialFromOneEntry(urlpath: string)
    ensures var s := Initial(urlpath);
      (s.activeGroup == "" && s.activeItem == ""
        && forall j :: 0 <= j < |Catalog| ==> !ItemHighlighted(s, Catalog[j].itemId))
      || exists k :: 0 <= k < |Catalog| && Matches(urlpath, Catalog[k])
           && ItemHighlighted(s, Catalog[k].itemId) && GroupSelected(s, Catalog[k].groupId)
  {
    var s := Initial(urlpath);
    CatalogWellFormed();
    ResolveFromOneEntry(urlpath, Catalog);
  }

  /** On first render the highlighted item always sits in the selected group. */
  lemma InitialHighlightInSelectedGroup(urlpath: string, j: nat)
    requires j < |Catalog| && ItemHighlighted(Initial(urlpath), Catalog[j].itemId)
    ensures GroupSelected(Initial(urlpath), Catalog[j].groupId)
  {
    var s := Initial(urlpath);
    InitialFromOneEntry(urlpath);
    var k :| 0 <= k < |Catalog| && ItemHighlighted(s, Catalog[k].itemId) && GroupSelected(s, Catalog[k].groupId);
    AtMostOneHighlighted(s, j, k);
  }

  /** On first render, an item of an expandable group is highlighted only inside
      its expanded group, and a highlighted top-level item (home, applications,
      policies) leaves every group collapsed. */
  lemma InitialExpansionFollowsHighlight(urlpath: string, j: nat)
    requires j < |Catalog| && ItemHighlighted(Initial(urlpath), Catalog[j].itemId)
    ensures GroupExpanded(Initial(urlpath), Catalog[j].groupId) <==> Catalog[j].groupId in ExpandableGroups
    ensures Catalog[j].groupId !in ExpandableGroups ==> forall g :: !GroupExpanded(Initial(urlpath), g)
  {
    InitialHighlightInSelectedGroup(urlpath, j);
  }

  /** The nav pair is empty or is the (group, item) pair of one catalog entry. */
  ghost predicate NavFromCatalog(s: Shell)
  {
    (s.activeGroup == "" && s.activeItem == "")
    || exists k :: 0 <= k < |Catalog| && s.activeGroup == Catalog[k].groupId && s.activeItem == Catalog[k].itemId
  }

  /** The seeded nav pair is empty or comes from one catalog entry. */
  lemma InitialNavFromCatalog(urlpath: string)
    ensures NavFromCatalog(Initial(urlpath))
  {
    InitialFromOneEntry(urlpath);
  }

  /** A nav item passes its own entry's group and item to `select`; such a call
      leaves the pair coming from one catalog entry, whatever the state before. */
  lemma SelectEntryKeepsNavFromCatalog(s: Shell, k: nat)
    requires k < |Catalog|
    ensures NavFromCatalog(SelectNav(s, Some(Catalog[k].groupId), Some(Catalog[k].itemId)))
  {
  }

  /** The shell as the component holds it: each field is a piece of state that the
      event handlers overwrite. */
  class ShellComponent {
    var activeGroup: string
    var activeItem: string
    var switcherOpen: bool
    var sidebarOpen: bool
    var userMenuOpen: bool
    var aboutMenuOpen: bool
    var aboutModalOpen: bool

    function State(): Shell
      reads this
    {
      Shell(activeGroup, activeItem, switcherOpen, sidebarOpen, userMenuOpen, aboutMenuOpen, aboutModalOpen)
    }

    /** Mounting: the resolver loop seeds the nav fields, then the flags take their defaults. */
    constructor (urlpath: string)
      ensures State() == Initial(urlpath)
    {
      var group, item := ResolveActiveRoute(urlpath, Catalog);
      activeGroup, activeItem := group, item;
      switcherOpen := false;
      sidebarOpen := true;
      userMenuOpen := false;
      aboutMenuOpen := false;
      aboutModalOpen := false;
    }

    /** The nav's `onSelect` handler. */
    method Select(groupId: Option<string>, itemId: Option<string>)
      modifies this
      ensures State() == SelectNav(old(State()), groupId, itemId)
    {
      if groupId.Some? {
        activeGroup := groupId.value;
      }
      if itemId.Some? {
        activeItem := itemId.value;
      }
    }

    /** The perspective switcher's toggle. */
    method OnPerspectiveToggle()
      modifies this
      ensures State() == Flip(old(State()), Switcher)
    {
      switcherOpen := !switcherOpen;
    }

    /** The header's sidebar (nav) toggle. */
    method OnNavToggle()
      modifies this
      ensures State() == Flip(old(State()), Sidebar)
    {
      sidebarOpen := !sidebarOpen;
    }

    /** The user-name dropdown's toggle. */
    method OnUserMenuToggle()
      modifies this
      ensures State() == Flip(old(State()), UserMenu)
    {
      userMenuOpen := !userMenuOpen;
    }

    /** The About dropdown's toggle. */
    method OnAboutMenuToggle()
      modifies this
      ensures State() == Flip(old(State()), AboutMenu)
    {
      aboutMenuOpen := !aboutMenuOpen;
    }

    /** The "About" item of the About dropdown. */
    method OnAboutItemClick()
      modifies this
      ensures State() == Flip(old(State()), AboutModal)
    {
      aboutModalOpen := !aboutModalOpen;
    }

    /** The modal's close button: it negates the flag rather than clearing it. */
    method OnAboutModalClose()
      modifies this
      ensures State() == Flip(old(State()), AboutModal)
    {
      aboutModalOpen := !aboutModalOpen;
    }
  }
}
