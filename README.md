# ACM header prototype: navigation state, header toggles and fail-soft values

A Dafny model of the rule-bearing core of the `AcmHeaderPrototype` React
component (`src/AcmHeaderPrototype/AcmHeaderPrototype.tsx`): the product header
and sidebar shell of the multicloud console. The model covers three things.

- **The active-route resolver** in `NavExpandableList`. A fixed catalog of six
  routes (welcome, overview, clusters, bare metal assets, applications,
  policies) is scanned in key order. Every entry whose path occurs anywhere in
  the current URL path overwrites the (group, item) pair. The last match wins,
  and an empty path selects nothing. `NavCatalog.ResolveActiveRoute` is the loop.
  It is proved equal to the recursive function `NavCatalog.Resolve`, and the
  resolver's properties are lemmas about `Resolve`. JavaScript's
  `String.prototype.indexOf` is modelled in `Substring`.
- **The header state.** `HeaderShell.ShellComponent` is a class with seven
  fields: the active group and item, and the switcher, sidebar, user-menu,
  About-menu and About-modal flags. In the source these fields are `useState`
  hooks spread over two components, `NavExpandableList` and
  `AcmHeaderPrototype`; the model puts them in one object. Each handler is a
  method whose postcondition equates the new `State()` with a pure transition of
  the old one (`SelectNav` or `Flip`). The frame and independence properties are
  proved about those transitions.
- **The fail-soft user name and version** (`DropdownName`, `AboutModalVersion`).
  The outcome of the request is an abstract `Request<T>` (pending, succeeded or
  failed). The model shows that a failure leaves each slot at its initial value.
  It also shows that the version slot draws a spinner exactly when its value is
  the string `"undefined"`.

Modules: `Substring` (substring search), `NavCatalog` (catalog and resolver),
`HeaderShell` (state and handlers), `RemoteValues` (fail-soft values).

Facts about the code that the model keeps as they are:

- The flags have no separate open or close operation: every trigger negates
  its flag. This includes the About modal's close button, which negates
  `aboutModalOpen` rather than setting it to false.
- The remote values carry no "loaded" flag. The version slot uses the string
  `"undefined"` as its "not loaded" marker, so a server that answers
  `"undefined"` is drawn exactly like a request that is still pending or has
  failed (`RemoteValues.VersionSpinnerIff`).
- `select` stores whatever ids it is given, without checking them against the
  catalog. The active pair is empty or the pair of one catalog entry on mount
  (`HeaderShell.InitialNavFromCatalog`), and it stays so as long as callers pass
  one entry's group and item together, as the nav items do
  (`HeaderShell.SelectEntryKeepsNavFromCatalog`).
- Only the `observe` and `automate` groups are drawn as expandable sections; the
  home, applications and policies items sit directly in the nav list.

## Model

| member | source | states |
|---|---|---|
| `Substring.IndexOfFrom` | src/AcmHeaderPrototype/AcmHeaderPrototype.tsx:154 | the result is -1 or a position at or after `from` where the needle occurs, with no occurrence between `from` and it; -1 means no occurrence at or after `from` |
| `Substring.IndexOf` | src/AcmHeaderPrototype/AcmHeaderPrototype.tsx:154 | `indexOf` gives the first position where the needle occurs, or -1 exactly when it occurs nowhere |
| `Substring.ContainsIffOccurs` | src/AcmHeaderPrototype/AcmHeaderPrototype.tsx:154 | `indexOf(...) !== -1` holds exactly when the needle occurs at some position, not only at position 0 |
| `Substring.ContainsInfix` | src/AcmHeaderPrototype/AcmHeaderPrototype.tsx:154 | a needle is found wherever it sits inside a longer string |
| `Substring.ContainsEnds` | src/AcmHeaderPrototype/AcmHeaderPrototype.tsx:154 | a string contains both its head and its tail |
| `Substring.EmptyContainsOnlyEmpty` | src/AcmHeaderPrototype/AcmHeaderPrototype.tsx:154 | the empty string contains only the empty needle |
| `NavCatalog.ResolveActiveRoute` | src/AcmHeaderPrototype/AcmHeaderPrototype.tsx:150-158 | the `forEach` loop that overwrites `currentGroup`/`currentItem` returns exactly the pair given by `Resolve` on the whole catalog |
| `NavCatalog.ResolveNoMatch` | src/AcmHeaderPrototype/AcmHeaderPrototype.tsx:150-158 | when no entry's path occurs in the URL path, the pair stays `("", "")` |
| `NavCatalog.ResolveEmptyPath` | src/AcmHeaderPrototype/AcmHeaderPrototype.tsx:154 | the empty path selects nothing, whatever the catalog holds, because of the `pathname &&` guard |
| `NavCatalog.ResolveLastMatch` | src/AcmHeaderPrototype/AcmHeaderPrototype.tsx:152-157 | the pair is that of the highest-index matching entry, whatever earlier entries also match |
| `NavCatalog.LastMatchIndex` | src/AcmHeaderPrototype/AcmHeaderPrototype.tsx:152-157 | an independent reference for the scan: the highest index whose entry matches, or -1 when no entry matches |
| `NavCatalog.ResolveFromOneEntry` | src/AcmHeaderPrototype/AcmHeaderPrototype.tsx:150-157 | the pair is `("", "")` when no entry matches, and otherwise the group and item of the last matching entry; group and item never come from different entries |
| `NavCatalog.CatalogWellFormed` | src/AcmHeaderPrototype/AcmHeaderPrototype.tsx:109-146 | every catalog entry has a non-empty group and item id, and no two entries share an item id |
| `NavCatalog.CatalogResolvesEmptyIffNoMatch` | src/AcmHeaderPrototype/AcmHeaderPrototype.tsx:109-158 | with the real catalog, the pair is `("", "")` if and only if no entry's path occurs in the URL path |
| `NavCatalog.SameRootContains` | src/AcmHeaderPrototype/AcmHeaderPrototype.tsx:154 | for a slash-free segment under `/multicloud/`, containment of another `/multicloud/` path reduces to a prefix test on the segments |
| `NavCatalog.ResolveBareMetal` | src/AcmHeaderPrototype/AcmHeaderPrototype.tsx:128-158 | `/multicloud/bare-metal-assets` selects `("automate", "automate_baremetal")` |
| `NavCatalog.ResolveOverview` | src/AcmHeaderPrototype/AcmHeaderPrototype.tsx:116-158 | `/multicloud/overview` selects `("observe", "observe_overview")` |
| `NavCatalog.ResolveUnknown` | src/AcmHeaderPrototype/AcmHeaderPrototype.tsx:109-158 | `/multicloud/unknown` selects `("", "")` |
| `NavCatalog.ResolvePoliciesAnywhere` | src/AcmHeaderPrototype/AcmHeaderPrototype.tsx:140-158 | any path that contains `/multicloud/policies`, at any position, selects `("grc", "grc_govern_risk")` |
| `NavCatalog.ResolveLaterEntryWins` | src/AcmHeaderPrototype/AcmHeaderPrototype.tsx:150-158 | a path starting with the welcome path and later containing the policies path matches both entries and selects the later, policies entry |
| `HeaderShell.Initial` | src/AcmHeaderPrototype/AcmHeaderPrototype.tsx:255-258 | on mount the sidebar is the only open flag (switcher, user menu, About menu and About modal closed) |
| `HeaderShell.InitialFromOneEntry` | src/AcmHeaderPrototype/AcmHeaderPrototype.tsx:150-161 | the seeded nav state is empty with no item highlighted, or the highlighted item and the selected group belong to one matching catalog entry |
| `HeaderShell.InitialHighlightInSelectedGroup` | src/AcmHeaderPrototype/AcmHeaderPrototype.tsx:197-242 | on first render a highlighted catalog item has its entry's `groupId` equal to the active group |
| `HeaderShell.InitialExpansionFollowsHighlight` | src/AcmHeaderPrototype/AcmHeaderPrototype.tsx:229-248 | on first render the highlighted item's group is drawn expanded exactly when it is `observe` or `automate`; a highlighted home, applications or policies item leaves every group collapsed |
| `HeaderShell.InitialNavFromCatalog` | src/AcmHeaderPrototype/AcmHeaderPrototype.tsx:150-161 | the seeded pair is empty or the group and item of one catalog entry |
| `HeaderShell.SelectEntryKeepsNavFromCatalog` | src/AcmHeaderPrototype/AcmHeaderPrototype.tsx:193-210 | a nav item's `select` call, which passes its own entry's group and item, leaves the pair coming from one catalog entry |
| `HeaderShell.AtMostOneHighlighted` | src/AcmHeaderPrototype/AcmHeaderPrototype.tsx:197 | `isActive={activeItem === data.itemId}` highlights at most one catalog item at a time |
| `HeaderShell.SelectNav` | src/AcmHeaderPrototype/AcmHeaderPrototype.tsx:165-172 | a supplied group id becomes the active group and a supplied item id the active item; an omitted id leaves its field unchanged; no flag changes |
| `HeaderShell.SelectNothing` | src/AcmHeaderPrototype/AcmHeaderPrototype.tsx:165-172 | `select` with neither id changes nothing |
| `HeaderShell.SelectIdempotent` | src/AcmHeaderPrototype/AcmHeaderPrototype.tsx:165-172 | repeating a selection changes nothing more |
| `HeaderShell.SelectGroupThenItem` | src/AcmHeaderPrototype/AcmHeaderPrototype.tsx:165-172 | selecting the group and then the item equals selecting both at once |
| `HeaderShell.Flip` | src/AcmHeaderPrototype/AcmHeaderPrototype.tsx:213 | a trigger (this one, and those at lines 320, 336, 344, 364 and 386) negates its own flag, leaves every other flag as it was, and leaves the nav selection alone |
| `HeaderShell.FlipTwice` | src/AcmHeaderPrototype/AcmHeaderPrototype.tsx:255-258 | two clicks on one trigger restore the previous state |
| `HeaderShell.FlipsCommute` | src/AcmHeaderPrototype/AcmHeaderPrototype.tsx:255-258 | the flags are independent: opening one never closes another, and the order of two triggers does not matter |
| `HeaderShell.SelectFlipCommute` | src/AcmHeaderPrototype/AcmHeaderPrototype.tsx:160-172 | navigation selection and the flags are independent axes |
| `HeaderShell.ShellComponent.constructor` | src/AcmHeaderPrototype/AcmHeaderPrototype.tsx:160-162 | mounting runs the resolver loop and seeds the nav fields from it, with the flags at their defaults (`Initial`) |
| `HeaderShell.ShellComponent.Select` | src/AcmHeaderPrototype/AcmHeaderPrototype.tsx:165-172 | the new state is `SelectNav` of the old one |
| `HeaderShell.ShellComponent.OnPerspectiveToggle` | src/AcmHeaderPrototype/AcmHeaderPrototype.tsx:213 | the new state is the old one with only the switcher flag negated |
| `HeaderShell.ShellComponent.OnNavToggle` | src/AcmHeaderPrototype/AcmHeaderPrototype.tsx:386 | the new state is the old one with only the sidebar flag negated |
| `HeaderShell.ShellComponent.OnUserMenuToggle` | src/AcmHeaderPrototype/AcmHeaderPrototype.tsx:344 | the new state is the old one with only the user-menu flag negated |
| `HeaderShell.ShellComponent.OnAboutMenuToggle` | src/AcmHeaderPrototype/AcmHeaderPrototype.tsx:320 | the new state is the old one with only the About-menu flag negated |
| `HeaderShell.ShellComponent.OnAboutItemClick` | src/AcmHeaderPrototype/AcmHeaderPrototype.tsx:336 | the new state is the old one with only the About-modal flag negated |
| `HeaderShell.ShellComponent.OnAboutModalClose` | src/AcmHeaderPrototype/AcmHeaderPrototype.tsx:364 | closing the modal negates its flag (it does not set it to false), and nothing else changes |
| `RemoteValues.SlotValue` | src/AcmHeaderPrototype/AcmHeaderPrototype.tsx:51-64 | a slot shows its initial value while pending, the fetched value on success and the fallback on failure |
| `RemoteValues.UsernameFailSoft` | src/AcmHeaderPrototype/AcmHeaderPrototype.tsx:60-63 | a failed user-name request leaves the name `""`, the value it had before the request settled |
| `RemoteValues.UsernameEmptyIff` | src/AcmHeaderPrototype/AcmHeaderPrototype.tsx:51-64 | the name is empty exactly when the request is pending, failed, or returned an empty name |
| `RemoteValues.VersionFailSoft` | src/AcmHeaderPrototype/AcmHeaderPrototype.tsx:80-83 | a failed version request leaves the version `"undefined"`, its value before the request settled |
| `RemoteValues.ViewVersion` | src/AcmHeaderPrototype/AcmHeaderPrototype.tsx:87 | the spinner is drawn if and only if the version value is `"undefined"`; otherwise the value itself is shown |
| `RemoteValues.VersionSpinnerIff` | src/AcmHeaderPrototype/AcmHeaderPrototype.tsx:71-87 | the spinner shows exactly while the request is pending, after it failed, or when the server answered `"undefined"`; otherwise the fetched version is shown verbatim |

## Left out

- The `api` helpers and the HTTP requests behind them are not modelled: the status check, JSON parsing, `fetch` and the environment-selected host (`process.env.NODE_ENV`). A request appears only as its outcome, `RemoteValues.Request`.
- Logging to the console on failure is I/O and is not modelled.
- `logout`, `configureClient` and `launchToOCP` are not modelled. Their effect is on browser globals: a hidden form and frame, timers, `location.reload` and `window.open`.
- The JSX rendering, the PatternFly widgets and the `makeStyles` CSS are not modelled. What rendering decides about state is captured by `HeaderShell.GroupSelected`, `HeaderShell.ItemHighlighted` and `RemoteValues.ViewVersion`.
- The resolver runs on every render, but `useState` uses the resolved pair only on mount, so a later change of the `urlpath` prop does not re-seed the active group and item. The model seeds them in the constructor only and has no operation for a path change.
- The `onClick` of a nav item (`window.open(data.path, '_self')`) is navigation and is not modelled.
- HeaderShell.ShellComponent.Select: ids are strings. The `toString()` coercion of numeric ids is not modelled.
- NavCatalog.ResolveActiveRoute: the URL path is a string, as the component's props declare it. An absent (`undefined`) path cannot be represented. The `pathname &&` truthiness test is modelled as "the path is not empty".
- Substring.IndexOf: strings are sequences of characters. JavaScript's UTF-16 code units, surrogate pairs and any normalisation are not modelled.
- The asynchronous timing of the two fetch effects is not modelled, nor are late updates after unmount. Each slot's value is a function of its request's outcome.
- `src/AcmHeader/AcmHeader.stories.tsx` is Storybook wiring around a component whose source is not part of this model.
