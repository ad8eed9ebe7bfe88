# Report page script: collapsible outline, link reveal and mission tables

This project models the behaviour of `script.js`, the script of a static report page, and
proves properties of the model in Dafny. It covers four parts of the script:

- **The sectionizer** runs at load. For every H1-H3 inside `<main>`, outside `<header>` and
  `#toc`, it collects the following siblings up to the next heading of the same or higher rank.
  A heading that leads its `<section>` also takes the following sibling sections that open with
  a deeper heading. The collected nodes move into a new content group placed right after the
  heading, and the heading becomes collapsible with `aria-expanded="true"`. Clicking the
  heading, or pressing Enter or Space on it, toggles the group.
- **Collapse/Expand All.** `getHeads`, `allCollapsed`, `setAll` and `syncCollapseBtn`, and the
  press of the button that combines them.
- **The link reveal.** `expandToReveal` and the click handler of the table-of-contents links.
  The handler opens the sections around the target, shows the target's own group, scrolls to
  it and collapses the sidebar.
- **The mission tables** (`initMission`). Each table renders its plan rows with serial numbers.
  A row click selects that row and relabels the header from the command's legend. A click on
  the header row, or anywhere outside the table and its Advanced button, clears the selection
  and restores the default labels. The Advanced button only flips two classes.

The document is an arena tree (`Dom.Tree`): node kinds, parent links and ordered child lists,
plus a ghost depth used for termination and acyclicity. Node 0 is the document root and has no
parent; `Pages.Page.Valid` requires this, so whole-document queries walk from node 0. The collapse state is `Collapse.Marks`:
the `is-hidden` class, `aria-expanded` and the collapsible-heading class of each node. The
central invariant is `Collapse.Synced`: every collapsible heading is an H1-H3, its very next
sibling is its content group, and `aria-expanded` says whether that group shows.

The script changes the page in place, so class `Pages.Page` holds the tree and the marks as
fields. Each handler is a method with loops mirroring the script's loops. Each method is
proved equal to a specification function of modules `Outline`, `Collapse` and `Reveal`, and
the properties are lemmas about those functions. The mission tables work the same way:
`Mission.MissionTable` and `Mission.MissionPage` are proved against `Mission.View`-valued
functions.

Files:

- `seqs.dfy`: child-list operations.
- `dom.dfy`: the tree and the DOM queries.
- `surgery.dfy`: `after`/`appendChild` as a tree rewrite.
- `outline.dfy`: the sectionizer as functions.
- `collapse.dfy`: toggle and Collapse/Expand All.
- `reveal.dfy`: `expandToReveal`, link targets and the corrected reveal.
- `findings.dfy`: the concrete page for the finding below.
- `page.dfy`: the page class.
- `mission.dfy`: the mission tables.

The Collapse/Expand All label is set only at load and after a press of that button
(script.js:320-331). Toggling a single section does not relabel it, and the model follows that.

## Model

| member | source | states |
|---|---|---|
| Dom.Level | script.js:136 | `levels[tagName]`: the rank 1-3 exactly for H1, H2, H3 elements, 0 for every other node |
| Dom.Select | script.js:141 | `querySelectorAll` over a node list: keeps exactly the nodes satisfying the selector |
| Dom.SelectAppend | script.js:141 | the selection keeps list order: the matches of `a + b` are the matches of `a` followed by those of `b` |
| Dom.SelectFirst | script.js:137-138 | the first match returned is the first node of the list that matches (`querySelector`) |
| Dom.Closest | script.js:145-150 | `closest(sel)`: the result satisfies the selector and contains the node; -1 only when no ancestor-or-self does |
| Outline.ScanRun | script.js:160-169 | the scan keeps a prefix of the following siblings with no stopping heading in it, and stops exactly at the first H1-H3 of level at most the heading's |
| Outline.ScanRunUnique | script.js:160-169 | any stopper-free prefix followed by a stopper or the end is the scanned run |
| Outline.AbsorbRun | script.js:179-189 | the absorbed sections are a prefix of the element siblings, all sections opening with a deeper heading, ending before the first that is not |
| Outline.AbsorbWalkRun | script.js:179-189 | walking `nextElementSibling` from the section absorbs exactly the same run |
| Outline.LedSection | script.js:175-178 | absorption only starts from a section containing the heading in which it is the first H1-H3 |
| Outline.ScanNeighbours | script.js:160-168 | each collected node is the `nextSibling` of the one before it, the first of the heading |
| Outline.ScanContinues | script.js:162-168 | when the next sibling of a collected node does not stop the scan, it is collected next |
| Outline.ToMoveMovable | script.js:159-196 | the collected list is duplicate-free, never holds the heading or an ancestor of it, so the move is well defined |
| Outline.ScanFacts | script.js:160-169 | the scanned nodes are distinct siblings of the heading, never the heading |
| Outline.AbsorbedFacts | script.js:175-190 | the absorbed nodes are distinct sections that are siblings of the led section |
| Outline.SectionizeOneWraps | script.js:192-202 | a heading that collected something gets a new shown group right after it, holding exactly the collected nodes in order, and becomes collapsible and expanded |
| Outline.SectionizeOneRanked | script.js:192-196 | after the move the document is still a tree |
| Outline.SectionizeOneSynced | script.js:143-202 | one heading's step keeps every collapsible heading in step with its group |
| Outline.SectionizeKeepsSyncedAt | script.js:192-196 | moving one heading's nodes keeps every other collapsible heading next to its own group |
| Outline.MovedKeepsGroup | script.js:196 | a collapsible heading moved with its group stays directly before it |
| Outline.StayingKeepsGroup | script.js:195-196 | a heading not moved keeps its group as next sibling |
| Outline.SectionizeAllKeeps | script.js:143-226 | the whole `forEach` keeps the tree a tree and the page synced |
| Outline.SectionizeSynced | script.js:135-227 | after the sectionizer runs on a fresh page the document is still a tree, and every collapsible heading is followed by its group, reads expanded and its group is shown |
| Outline.SectionizeOneOpen | script.js:197-202 | one heading's step leaves every collapsible heading expanded: the new one starts expanded and no other heading's mark moves |
| Outline.SectionizeAllOpen | script.js:143-226 | the whole `forEach` leaves every collapsible heading expanded |
| Outline.HeadingsOf | script.js:141 | the headings processed are H1-H3 elements in `main` |
| Outline.MainOf | script.js:137-138 | `querySelector('main')` finds a `main` element or nothing |
| Surgery.Wrapped | script.js:195-196 | the group is a new node whose children are exactly the moved nodes, each now its child, under the heading's parent |
| Surgery.WrappedAfterHeading | script.js:195 | `h.after(content)` places the group directly after the heading |
| Surgery.WrappedHeadingNext | script.js:195 | the heading's next sibling is the group |
| Surgery.WrappedMovedNext | script.js:196 | moved nodes keep their order inside the group |
| Surgery.WrappedKeepsNext | script.js:195-196 | siblings not involved in the move keep their next sibling |
| Surgery.AppendStep | script.js:196 | each `appendChild` extends the wrap by exactly one node |
| Surgery.WrappedShaped | script.js:195-196 | the rewritten tree is well formed |
| Surgery.WrappedRanked | script.js:195-196 | the rewritten tree stays acyclic, with depths recomputed |
| Collapse.Toggled | script.js:210-217 | `toggle` keeps which headings are collapsible and every mark's length |
| Collapse.ToggleFlips | script.js:210-217 | on a synced page a toggle flips the group's `is-hidden` and the heading's `aria-expanded`, keeps them opposite, and changes nothing else |
| Collapse.ToggleTwice | script.js:210-217 | two toggles restore the marks |
| Collapse.ToggleKeepsSynced | script.js:210-217 | a toggle keeps the page synced |
| Collapse.HeadsIn | script.js:298 | exactly the collapsible H1-H3 in `main` of the list |
| Collapse.HeadsInAppend | script.js:298 | the heads keep list order: the heads of `a + b` are those of `a` followed by those of `b` |
| Collapse.HeadsInMarks | script.js:298 | the heads do not depend on `is-hidden` or `aria-expanded` |
| Collapse.OutsideTocMeans | script.js:298-299 | `getHeads` keeps exactly the heads not inside `#toc` |
| Collapse.AllCollapsedMeans | script.js:301-304 | true exactly when every head's next element sibling exists and is hidden |
| Collapse.SetAllEffect | script.js:306-318 | `setAll(e)` marks every head owning a group as `e` and its group hidden as `!e`, leaving other headings and nodes alone |
| Collapse.SetAllKeepsSynced | script.js:306-318 | `setAll` keeps the page synced |
| Collapse.Label | script.js:320-323 | the label reads "Expand All" exactly when everything is collapsed |
| Collapse.ClickFlips | script.js:327-331 | a press expands everything when all was collapsed and collapses everything otherwise, and afterwards all-collapsed holds exactly when it collapsed (or there are no heads) |
| Collapse.ClickRelabels | script.js:327-331 | after a press `getHeads` lists the same heads, so the new label names the opposite action |
| Reveal.FirstOpener | script.js:241-254 | the heading the `for` loop stops at: a listed head whose group contains the node; -1 only when no head's does |
| Reveal.FirstOpenerAt | script.js:242-253 | the loop stops at the first head in document order whose group contains the node |
| Reveal.FirstOpenerHigher | script.js:245-251 | the heading moved to is strictly higher in the tree, so the `while (changed)` loop ends |
| Reveal.RevealPath | script.js:234-256 | the headings the loop opens in turn are nodes of the page |
| Reveal.RevealPathStep | script.js:239-255 | the path is empty when no group contains the target, and otherwise the first opener followed by the path from it |
| Reveal.RevealPathClimbs | script.js:239-255 | each heading on the path owns a group containing the previous node, and the path is empty exactly when no group contains the target |
| Reveal.RevealPathListed | script.js:241-250 | only listed heads are opened |
| Reveal.OpenAll | script.js:246-249 | opening headings never changes which headings are collapsible |
| Reveal.OpenAllNeverCloses | script.js:246-249 | `expandToReveal` never hides a group and never closes a heading |
| Reveal.RevealKeepsSynced | script.js:234-256 | `expandToReveal` keeps the page synced |
| Reveal.OpenAllShows | script.js:246-249 | every collapsible heading opened ends up expanded with its group shown |
| Reveal.OpenAllTwice | script.js:265-267 | opening the same headings again changes nothing |
| Reveal.RevealTwice | script.js:265-267 | the second `expandToReveal(target)` of a link click has no effect |
| Reveal.Enclosing | script.js:236 | the heads whose group contains the target: exactly every section around it |
| Reveal.EnclosingSnoc | script.js:242-253 | scanning one more head appends it at the end exactly when its group contains the target, so the list keeps the order of the heads |
| Reveal.OpenEnclosingStep | script.js:242-249 | one more head in the corrected pass is opened exactly when its group contains the target |
| Reveal.RevealShowsEnclosing | script.js:234-256 | the corrected reveal shows the group of every head around the target and keeps the page synced |
| Reveal.ElementById | script.js:263 | `querySelector('#id')` finds an element of the document with that id before which no node in document order has it, or -1 when none has it |
| Reveal.LinkTarget | script.js:260-264 | only an `href` of `#` followed by a CSS identifier can find a target, and the target carries that id |
| Reveal.ShowKeepsSynced | script.js:269-274 | showing the target's own group keeps the page synced |
| Findings.NestedPath | script.js:241-253 | on the nested page the loop goes from `#c` straight to the outermost heading and stops |
| Findings.NestedOrder | script.js:241 | the nested page, walked in document order as `querySelectorAll` lists it, is nodes 0 to 6 |
| Findings.NestedHeads | script.js:241 | on the nested page with both sections collapsed, the heads the reveal lists, in document order, are the H1 then the H2 |
| Findings.NestedLinkTarget | script.js:260-263 | on the nested page a link to `#c` targets the H3 |
| Findings.RevealLeavesInnerHidden | script.js:234-274 | over the heads and `nextElementSibling` table the page computes: the first reveal from `#c` opens only the H1, the second opens nothing more, and after the target's own group is shown the group of the H2, which contains `#c`, is still hidden; the corrected reveal shows it |
| Findings.ClickLeavesInnerHidden | script.js:258-274 | on a page holding the nested document with both sections collapsed, `TocClick("#c")` prevents the default and leaves the H2's group hidden |
| Findings.NestedClick | script.js:258-274 | the state `TocClick("#c")` promises on the nested page with both sections collapsed, with `#c` as the link's target, leaves the H2's group hidden |
| Findings.NestedCorrected | script.js:234-256 | the corrected reveal of `#c`, over the heads and table the page computes, shows the H2's group |
| Findings.CorrectedShowsInner | script.js:234-256 | on the same page the corrected reveal of `#c` shows the H2's group |
| Pages.ScanSiblings | script.js:160-169 | the `while (sib)` loop collects exactly the scanned run |
| Pages.AbsorbFrom | script.js:179-189 | the `while (sec ...)` loop collects exactly the absorbed run |
| Pages.AbsorbSections | script.js:175-191 | the absorption happens only for the first heading of its section and yields exactly the absorbed sections |
| Pages.Page.Wrap | script.js:195-196 | `after` then one `appendChild` per node rewrites the tree as `Surgery.Wrapped` and adds a shown, non-collapsible group |
| Pages.Page.SectionizeHeading | script.js:143-197 | one heading's step, skip tests included, is `Outline.SectionizeOne`, and the page stays valid |
| Pages.Page.MakeCollapsible | script.js:192-202 | the wrap and the heading's new marks give `Outline.SectionizeOne` |
| Pages.Page.SectionizePage | script.js:135-227 | the sectionizer on page load is `Outline.Sectionize` of the page as loaded |
| Pages.Page.Toggle | script.js:210-225 | a heading's click or key press is `Collapse.Toggled` and keeps the page valid |
| Pages.Page.HeadsOutsideToc | script.js:298-299 | `getHeads` lists collapsible H1-H3 of the page |
| Pages.Page.SetAllGroups | script.js:306-318 | `setAll` is `Collapse.SetAll` over `getHeads` and keeps the page valid |
| Pages.Page.SetGroups | script.js:307-317 | the `forEach` of `setAll`, head by head |
| Pages.Page.SyncCollapseButton | script.js:320-323 | the button text becomes the label of the current all-collapsed state |
| Pages.Page.CollapseAllClick | script.js:327-331 | a press is `setAll(allCollapsed())` followed by the relabel |
| Pages.Page.ExpandToReveal | script.js:234-256 | `expandToReveal` as written opens exactly the headings of `Reveal.RevealPath` and keeps the page valid |
| Pages.Page.RevealLoop | script.js:237-255 | the `while (changed)` loop, heads listed afresh each pass, opens the path in order |
| Pages.Page.RevealStep | script.js:240-254 | one pass returns the first opener and opens it when it reads collapsed |
| Pages.Page.RevealEnclosing | script.js:234-256 | the corrected reveal opens every head around the target, and each of their groups shows |
| Pages.Page.OpenEnclosing | script.js:242-253 | the corrected pass over the heads opens exactly `Reveal.Enclosing` |
| Pages.Page.OpenIfEncloses | script.js:243-249 | one head is opened exactly when its next sibling is collapsible content that contains the target and it reads collapsed; otherwise nothing changes |
| Pages.Page.TocClick | script.js:258-284 | a link click prevents the default exactly for `#` links; with no target nothing changes; otherwise the outline is opened as `OpenTarget` says, the target is scrolled to and the sidebar collapses |
| Pages.Page.OpenTarget | script.js:264-274 | two reveals and the target's own group shown equal one reveal followed by showing that group |
| Pages.Page.FollowLink | script.js:263-281 | following a found target opens the outline as `OpenTarget` says, keeps the page valid and collapses the sidebar |
| Pages.Page.ExpandAgain | script.js:267 | the second `expandToReveal` leaves the marks unchanged |
| Pages.Page.ShowOwnGroup | script.js:269-274 | the target's own group, when it follows it, is shown and the target marked expanded |
| Pages.Page.CollapseSidebar | script.js:277-281 | the target is scrolled to, `toc-collapsed` is set and the handle, when present, reads collapsed |
| Mission.HeadsFor | script.js:468-469 | a row click's labels: `Sr. No`, then the command's legend, the WAYPOINT legend for an unknown command; always 14 labels like the default |
| Mission.LegendsAligned | script.js:381-388 | every legend has 13 labels starting with `Command`, and the default header 14 |
| Mission.ShippedPlansWellFormed | script.js:390-420 | both plans' rows have 13 cells and a known command, so the WAYPOINT fallback never fires on them |
| Mission.Decimal | script.js:438-439 | the serial numeral has digits only and no leading zero |
| Mission.DecimalRoundTrip | script.js:438-439 | reading a serial back gives the number written |
| Mission.DecimalInjective | script.js:438-439 | two rows never share a serial |
| Mission.RenderedDecodes | script.js:434-476 | rendered row `i` reads serial `i + 1` followed by the plan row's cells in order |
| Mission.SetLabels | script.js:479-483 | `setHeader` writes label `i` into header cell `i` when it exists; other cells keep their text |
| Mission.SetLabelsSnoc | script.js:482 | one more label writes one more cell, if there is one |
| Mission.SetLabelsOverwrite | script.js:479-483 | a second `setHeader` with as many labels erases every trace of the first |
| Mission.SetLabelsExact | script.js:479-483 | with one label per cell the header reads exactly the labels |
| Mission.NoneSelected | script.js:431 | no row selected |
| Mission.RowClicked | script.js:465-474 | a row click leaves exactly that row selected and writes its labels, touching nothing else |
| Mission.Reset | script.js:490-504 | a reset leaves no row selected and writes the default labels, touching nothing else |
| Mission.Advanced | script.js:510-513 | the Advanced button flips `hide-advanced` and `active` and touches neither selection nor header |
| Mission.ResetForgetsRowClick | script.js:465-504 | a reset after a row click gives the same state as a reset without it |
| Mission.ResetIdempotent | script.js:490-504 | two resets are one |
| Mission.FullHeaderLabels | script.js:422-484 | with 14 header cells a reset shows exactly the default labels and a row click exactly the row's labels |
| Mission.AdvancedInvolution | script.js:510-513 | two presses of the Advanced button restore the view |
| Mission.AfterClick | script.js:465-513 | one page click on a table: a click outside it and off its button resets it; a click on its button only flips the classes; a click inside never touches the classes |
| Mission.OtherTableResets | script.js:497-505 | a click in one table or on its button resets the other table |
| Mission.RowClickSelectsOne | script.js:465-474 | a row click selects that row alone and shows its command's labels |
| Mission.MissionTable.constructor | script.js:424-484 | `initMission` on a present table renders the rows, none selected, and writes the default labels |
| Mission.MissionTable.RenderRows | script.js:434-476 | the rendering loop produces the serial then the cells of each plan row, in order |
| Mission.MissionTable.ClearSelected | script.js:431 | `clearSelected` unselects every row |
| Mission.MissionTable.SetHeader | script.js:479-483 | the `forEach` of `setHeader` computes `SetLabels`; nothing happens without a header row |
| Mission.MissionTable.RowClick | script.js:465-474 | the row listener is `RowClicked` |
| Mission.MissionTable.ResetTable | script.js:490-504 | the header-row and outside-click listeners are `Reset` |
| Mission.MissionTable.AdvancedClick | script.js:510-513 | the Advanced listener is `Advanced` |
| Mission.MissionTable.Receive | script.js:465-513 | a click, as one table's listeners see it, is `AfterClick` |
| Mission.MissionPage.constructor | script.js:424-426 | a table missing from the page is absent and gets no listeners; present ones use `data1` and `data2` |
| Mission.MissionPage.Click | script.js:497-505 | each present table reacts to every click as `AfterClick` says |

## Left out

- Icons, `tabIndex`, `role`, cursor, title and font styling, and the `data-collapsible-content` attribute. The model's `Group` node kind stands for an element carrying that attribute.
- Event-listener registration and key dispatch. Each handler is a method. Enter and Space call `toggle`, as a click does. `preventDefault` is the boolean result of `Pages.Page.TocClick`.
- The TOC link set (`main > section:first-of-type .links-tree a`). `Pages.Page.TocClick` takes the link's `href`, so any link of that set is covered.
- Smooth scrolling. `scrollIntoView` is recorded as the node scrolled to.
- Reveal.LinkTarget: `querySelector(href)` is modelled only for `#` followed by a CSS identifier without escapes. Any other `href` is treated as finding no target. This is exact for `#` alone, which throws a syntax error after the default is prevented and changes nothing. A compound selector such as `#a b` would find a node in the browser; this model finds none.
- Pages.Page.CollapseSidebar: a missing `#toc .toc-handle` makes the script throw at its last statement. Every earlier effect has happened by then, so the model skips only that step.
- The initial `syncCollapseBtn()` at load, and the theme toggle with its storage and media queries. They are outside the outline's state.
- The tag filter, the sidebar handle and overlay wiring, and the media-query defaults. They touch neither the outline nor the tables.
- Clipboard copy of coordinate cells and its colour flash. These are asynchronous browser APIs and timers.
- Mission.MissionTable.constructor: a table without `tbody` makes the script throw. The model assumes every table has one.
- Mission.MissionTable.Receive: the Advanced button is looked up once when the table is set up. The outside-click test looks it up again on each click. The model assumes the page's markup does not change afterwards.
- Mission.HeadsFor: commands naming built-in object members (`toString`, `__proto__`) are not modelled. They would make the spread throw. The shipped plans contain none.
- Node-list liveness: every query is recomputed from the current tree at the point where the script runs it. The headings of the sectionizer are listed once, before any move, as the script does.

## Findings

| source | as written | input that shows it | evidently intended | confidence | as-written member | corrected member |
|---|---|---|---|---|---|---|
| script.js:241-253 | `expandToReveal` takes the first head in document order whose group contains the current node. That is the outermost section around it, so the loop jumps there and stops. Collapsed sections in between stay hidden. | `main` holds an H1 whose group holds a collapsed H2, whose group holds the target H3 `#c`; both sections collapsed; a click on a link to `#c` | move up one level at a time (as the comment at line 250 says), opening every section around the target | not executed | Findings.RevealLeavesInnerHidden | Pages.Page.RevealEnclosing |
