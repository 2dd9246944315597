/** The context-menu path tooltip: a capturing right-click handler remembers the
    file name of the clicked task item; when the host's context menu appears it
    gets a leading "Show Path" entry (once per menu, guarded by a marker), whose
    hover shows `Path: output/<file>`; when a menu disappears the remembered name
    and the tooltip are cleared. */
module ContextMenuPath {
  import opened Optional
  import opened Urls

  const ShowPathText := "Show Path"

  /** The tooltip text for a remembered file name. */
  function TooltipText(filename: string): string {
    "Path: output/" + filename
  }

  /** A `.task-item` as the handler reads it: its first `.task-output-image`. */
  datatype TaskItem = TaskItem(outputImage: Option<Image>)

  /** A right-click target as the handler reads it: the `.task-item` enclosing it. */
  datatype ClickTarget = ClickTarget(taskItem: Option<TaskItem>)

  /** The file name a right-click on `t` names, if any. */
  function ClickedFilename(t: ClickTarget): (r: Option<string>)
    ensures r.Some? <==> t.taskItem.Some? && t.taskItem.value.outputImage.Some?
                         && FilenameFromSrc(t.taskItem.value.outputImage.value.src).Some?
    ensures r.Some? ==> r == FilenameFromSrc(t.taskItem.value.outputImage.value.src) && r.value != ""
  {
    match t.taskItem
    case None => None
    case Some(item) =>
      match item.outputImage
      case None => None
      case Some(img) => FilenameFromSrc(img.src)
  }

  /** Entries of a menu's root list: this feature's entry, or one of the host's. */
  datatype MenuItem = ShowPathItem | HostItem(text: string)

  /** A `.p-contextmenu` root: whether it is in the document, the marker
      `data-luciano-processed`, and its `.p-contextmenu-root-list`, when it has
      one. A menu the host has closed keeps its contents but is no longer found by
      document queries. */
  datatype Menu = Menu(attached: bool, processed: bool, rootList: Option<seq<MenuItem>>)

  /** The feature: the `enabled` flag, whether the right-click handler and the menu
      observer are attached, the remembered file name, the tooltip's text when one
      is shown, and every context menu the host has created. The sequence is taken
      to be in document order: a menu the host reopens keeps its place, although
      the host appends it at the end of the body. */
  datatype MenuPath = MenuPath(
    enabled: bool,
    hooked: bool,
    lastClicked: Option<string>,
    tooltip: Option<string>,
    menus: seq<Menu>)

  /** Hooks are attached exactly while enabled; a remembered name is never empty. */
  predicate MenuValid(st: MenuPath) {
    && st.hooked == st.enabled
    && (st.lastClicked.Some? ==> st.lastClicked.value != "")
  }

  /** `setup`: ignored when enabled; otherwise enables and attaches the handler
      and the observer (the 500 ms delay is treated as immediate). */
  function Setup(st: MenuPath): (r: MenuPath)
    ensures st.enabled ==> r == st
    ensures !st.enabled ==> r == st.(enabled := true, hooked := true)
  {
    if st.enabled then st else st.(enabled := true, hooked := true)
  }

  /** `_handleRightClick`: when enabled, forgets the previous name and remembers the
      clicked item's file name, if it has one. */
  function HandleRightClick(st: MenuPath, t: ClickTarget): (r: MenuPath)
    ensures !st.enabled ==> r == st
    ensures st.enabled ==> r == st.(lastClicked := ClickedFilename(t))
  {
    if !st.enabled then st else st.(lastClicked := None).(lastClicked := ClickedFilename(t))
  }

  /** A right-click remembers exactly the file name of a task item's output image,
      and a right-click anywhere else forgets the previous one. */
  lemma RightClickRemembers(st: MenuPath, t: ClickTarget)
    requires st.enabled
    ensures var r := HandleRightClick(st, t);
      && (r.lastClicked.Some? <==>
            t.taskItem.Some? && t.taskItem.value.outputImage.Some?
            && Truthy(t.taskItem.value.outputImage.value.src)
            && FilenameFromSrc(t.taskItem.value.outputImage.value.src).Some?)
      && (r.lastClicked.Some? ==> r.lastClicked == FilenameFromSrc(t.taskItem.value.outputImage.value.src))
      && (t.taskItem.None? ==> r.lastClicked.None?)
      && r.tooltip == st.tooltip && r.menus == st.menus
  {
  }

  /** A context menu appearing: when a name is remembered and the menu is not yet
      processed, the menu is marked and, if it has a root list, gets the entry as
      its first child; otherwise nothing changes. */
  function OnMenuAdded(st: MenuPath, i: nat): (r: MenuPath)
    requires i < |st.menus|
    ensures |r.menus| == |st.menus|
    ensures !Truthy(st.lastClicked) || st.menus[i].processed ==> r == st
    ensures Truthy(st.lastClicked) && !st.menus[i].processed ==>
      && r.menus[i].processed
      && (st.menus[i].rootList.None? ==> r.menus[i].rootList.None?)
      && (st.menus[i].rootList.Some? ==>
            r.menus[i].rootList == Some([ShowPathItem] + st.menus[i].rootList.value))
      && r == st.(menus := r.menus)
    ensures forall k :: 0 <= k < |st.menus| && k != i ==> r.menus[k] == st.menus[k]
  {
    if Truthy(st.lastClicked) && !st.menus[i].processed then
      var m := st.menus[i].(processed := true);
      match m.rootList
      case None => st.(menus := st.menus[i := m])
      case Some(items) => st.(menus := st.menus[i := m.(rootList := Some([ShowPathItem] + items))])
    else st
  }

  /** A context menu disappearing: the remembered name and the tooltip go. */
  function OnMenuRemoved(st: MenuPath): (r: MenuPath)
    ensures r.lastClicked.None? && r.tooltip.None?
    ensures r.(lastClicked := st.lastClicked, tooltip := st.tooltip) == st
  {
    st.(lastClicked := None, tooltip := None)
  }

  /** The entry is injected at most once per menu. */
  lemma MenuAddedOnce(st: MenuPath, i: nat)
    requires i < |st.menus|
    ensures OnMenuAdded(OnMenuAdded(st, i), i) == OnMenuAdded(st, i)
  {
  }

  /** After a menu closes, a menu that opens without a new right-click gets no
      entry: a stale name cannot leak into it. */
  lemma NoStaleEntry(st: MenuPath, i: nat)
    requires i < |st.menus|
    ensures OnMenuAdded(OnMenuRemoved(st), i).menus == st.menus
  {
  }

  /** Hovering the entry shows the tooltip for the name remembered at hover time;
      with none remembered nothing happens. */
  function HoverShowPath(st: MenuPath): (r: MenuPath)
    ensures Truthy(st.lastClicked) ==> r == st.(tooltip := Some(TooltipText(st.lastClicked.value)))
    ensures !Truthy(st.lastClicked) ==> r == st
  {
    if Truthy(st.lastClicked) then st.(tooltip := Some(TooltipText(st.lastClicked.value))) else st
  }

  /** Leaving the entry removes the tooltip. */
  function LeaveShowPath(st: MenuPath): (r: MenuPath)
    ensures r.tooltip.None? && r.(tooltip := st.tooltip) == st
  {
    st.(tooltip := None)
  }

  /** A node added to or removed from the document body. */
  datatype Node = ContextMenuNode(index: nat) | OtherNode

  /** One mutation record: its added nodes, then its removed nodes. */
  datatype Mutation = Mutation(added: seq<Node>, removed: seq<Node>)

  function OnAddedNodes(st: MenuPath, nodes: seq<Node>): (r: MenuPath)
    ensures |r.menus| == |st.menus|
    ensures r.lastClicked == st.lastClicked && r.tooltip == st.tooltip
    ensures r.enabled == st.enabled && r.hooked == st.hooked
    decreases |nodes|
  {
    if nodes == [] then st
    else
      var st' := match nodes[0]
        case ContextMenuNode(i) => if i < |st.menus| then OnMenuAdded(st, i) else st
        case OtherNode => st;
      OnAddedNodes(st', nodes[1..])
  }

  function OnRemovedNodes(st: MenuPath, nodes: seq<Node>): (r: MenuPath)
    ensures HasMenu(nodes) ==> r == OnMenuRemoved(st)
    ensures !HasMenu(nodes) ==> r == st
    decreases |nodes|
  {
    if nodes == [] then st
    else
      var st' := if nodes[0].ContextMenuNode? then OnMenuRemoved(st) else st;
      OnRemovedNodes(st', nodes[1..])
  }

  predicate HasMenu(nodes: seq<Node>) {
    exists k :: 0 <= k < |nodes| && nodes[k].ContextMenuNode?
  }

  /** The records of one observer callback, in order. */
  function OnRecords(st: MenuPath, muts: seq<Mutation>): (r: MenuPath)
    ensures |r.menus| == |st.menus|
    ensures r.enabled == st.enabled && r.hooked == st.hooked
    decreases |muts|
  {
    if muts == [] then st
    else OnRecords(OnRemovedNodes(OnAddedNodes(st, muts[0].added), muts[0].removed), muts[1..])
  }

  /** The menu observer's callback: nothing when detached or disabled. */
  function Observe(st: MenuPath, muts: seq<Mutation>): (r: MenuPath)
    ensures !st.hooked || !st.enabled ==> r == st
  {
    if !st.hooked || !st.enabled then st else OnRecords(st, muts)
  }

  /** The host opens menu `i`: it enters the document and, while the feature is on,
      the observer sees it added. */
  function MenuOpens(st: MenuPath, i: nat): (r: MenuPath)
    requires i < |st.menus|
    ensures |r.menus| == |st.menus| && r.menus[i].attached
    ensures forall k :: 0 <= k < |st.menus| && k != i ==> r.menus[k] == st.menus[k]
    ensures r.enabled == st.enabled && r.hooked == st.hooked && r.lastClicked == st.lastClicked
  {
    var a := st.(menus := st.menus[i := st.menus[i].(attached := true)]);
    if a.hooked && a.enabled then OnMenuAdded(a, i) else a
  }

  /** The host closes menu `i`: it leaves the document, keeping its contents, and
      while the feature is on the observer sees it removed. */
  function MenuCloses(st: MenuPath, i: nat): (r: MenuPath)
    requires i < |st.menus|
    ensures r.menus == st.menus[i := st.menus[i].(attached := false)]
    ensures r.enabled == st.enabled && r.hooked == st.hooked
    ensures st.enabled && st.hooked ==> r.lastClicked.None? && r.tooltip.None?
  {
    var a := st.(menus := st.menus[i := st.menus[i].(attached := false)]);
    if a.hooked && a.enabled then OnMenuRemoved(a) else a
  }

  /** Opening and closing are what the observer reports for one record holding
      the menu. */
  lemma HostEventsAreObserved(st: MenuPath, i: nat)
    requires i < |st.menus|
    ensures MenuOpens(st, i) == Observe(st.(menus := st.menus[i := st.menus[i].(attached := true)]), [Mutation([ContextMenuNode(i)], [])])
    ensures MenuCloses(st, i) == Observe(st.(menus := st.menus[i := st.menus[i].(attached := false)]), [Mutation([], [ContextMenuNode(i)])])
  {
    var a := st.(menus := st.menus[i := st.menus[i].(attached := true)]);
    var opens := [Mutation([ContextMenuNode(i)], [])];
    if a.hooked && a.enabled {
      assert [ContextMenuNode(i)][1..] == [];
      assert OnAddedNodes(a, [ContextMenuNode(i)]) == OnMenuAdded(a, i);
      assert opens[1..] == [];
      assert OnRecords(a, opens) == OnRemovedNodes(OnAddedNodes(a, [ContextMenuNode(i)]), []);
    }
    var c := st.(menus := st.menus[i := st.menus[i].(attached := false)]);
    var closes := [Mutation([], [ContextMenuNode(i)])];
    if c.hooked && c.enabled {
      assert HasMenu([ContextMenuNode(i)]) by {
        assert [ContextMenuNode(i)][0].ContextMenuNode?;
      }
      assert closes[1..] == [];
      assert OnRecords(c, closes) == OnRemovedNodes(OnAddedNodes(c, []), [ContextMenuNode(i)]);
    }
  }

  /** The `added` lists of all records. */
  predicate Adds(muts: seq<Mutation>, i: nat) {
    exists j, k :: 0 <= j < |muts| && 0 <= k < |muts[j].added| && muts[j].added[k] == ContextMenuNode(i)
  }

  predicate RemovesMenu(muts: seq<Mutation>) {
    exists j, k :: 0 <= j < |muts| && 0 <= k < |muts[j].removed| && muts[j].removed[k].ContextMenuNode?
  }

  lemma RemovesMenuCons(muts: seq<Mutation>)
    requires muts != []
    ensures RemovesMenu(muts) <==> HasMenu(muts[0].removed) || RemovesMenu(muts[1..])
  {
    if RemovesMenu(muts) {
      var j, k :| 0 <= j < |muts| && 0 <= k < |muts[j].removed| && muts[j].removed[k].ContextMenuNode?;
      if j > 0 {
        assert muts[1..][j - 1] == muts[j];
      }
    }
    if RemovesMenu(muts[1..]) {
      var j, k :| 0 <= j < |muts[1..]| && 0 <= k < |muts[1..][j].removed| && muts[1..][j].removed[k].ContextMenuNode?;
      assert muts[1..][j] == muts[j + 1];
    }
  }

  /** With no name remembered and no tooltip, a callback changes nothing. */
  lemma {:induction false} IdleRecords(st: MenuPath, muts: seq<Mutation>)
    requires st.lastClicked.None? && st.tooltip.None?
    ensures OnRecords(st, muts) == st
    decreases |muts|
  {
    if muts != [] {
      IdleAdded(st, muts[0].added);
      IdleRemoved(st, muts[0].removed);
      IdleRecords(st, muts[1..]);
    }
  }

  lemma {:induction false} IdleAdded(st: MenuPath, nodes: seq<Node>)
    requires !Truthy(st.lastClicked)
    ensures OnAddedNodes(st, nodes) == st
    decreases |nodes|
  {
    if nodes != [] {
      IdleAdded(st, nodes[1..]);
    }
  }

  lemma {:induction false} IdleRemoved(st: MenuPath, nodes: seq<Node>)
    requires st.lastClicked.None? && st.tooltip.None?
    ensures OnRemovedNodes(st, nodes) == st
    decreases |nodes|
  {
    if nodes != [] {
      IdleRemoved(st, nodes[1..]);
    }
  }

  /** Every menu that `nodes` adds is processed, or no name is remembered. */
  predicate Settled(st: MenuPath, nodes: seq<Node>) {
    forall k :: 0 <= k < |nodes| && nodes[k].ContextMenuNode? && nodes[k].index < |st.menus| ==>
      st.menus[nodes[k].index].processed || !Truthy(st.lastClicked)
  }

  predicate AllSettled(st: MenuPath, muts: seq<Mutation>) {
    forall j :: 0 <= j < |muts| ==> Settled(st, muts[j].added)
  }

  /** Markers are only ever set. */
  predicate MarkersGrow(st: MenuPath, r: MenuPath) {
    && |r.menus| == |st.menus|
    && r.lastClicked == st.lastClicked
    && forall i :: 0 <= i < |st.menus| && st.menus[i].processed ==> r.menus[i].processed
  }

  lemma SettledGrows(st: MenuPath, r: MenuPath, nodes: seq<Node>)
    requires MarkersGrow(st, r) && Settled(st, nodes)
    ensures Settled(r, nodes)
  {
  }

  /** Processing added nodes settles them and only sets markers. */
  lemma {:induction false} AddedSettles(st: MenuPath, nodes: seq<Node>)
    ensures MarkersGrow(st, OnAddedNodes(st, nodes))
    ensures Settled(OnAddedNodes(st, nodes), nodes)
    decreases |nodes|
  {
    if nodes != [] {
      var st' := match nodes[0]
        case ContextMenuNode(i) => if i < |st.menus| then OnMenuAdded(st, i) else st
        case OtherNode => st;
      AddedSettles(st', nodes[1..]);
      var r := OnAddedNodes(st, nodes);
      assert r == OnAddedNodes(st', nodes[1..]);
      assert Settled(r, nodes[1..]);
      assert Settled(st', [nodes[0]]);
      SettledGrows(st', r, [nodes[0]]);
      forall k | 0 <= k < |nodes| && nodes[k].ContextMenuNode? && nodes[k].index < |r.menus|
        ensures r.menus[nodes[k].index].processed || !Truthy(r.lastClicked)
      {
        if k > 0 {
          assert nodes[1..][k - 1] == nodes[k];
        } else {
          assert [nodes[0]][0] == nodes[k];
        }
      }
    }
  }

  /** Added nodes that are already settled change nothing. */
  lemma {:induction false} SettledAddedIdle(st: MenuPath, nodes: seq<Node>)
    requires Settled(st, nodes)
    ensures OnAddedNodes(st, nodes) == st
    decreases |nodes|
  {
    if nodes != [] {
      assert Settled(st, nodes[1..]) by {
        forall k | 0 <= k < |nodes[1..]| && nodes[1..][k].ContextMenuNode? && nodes[1..][k].index < |st.menus|
          ensures st.menus[nodes[1..][k].index].processed || !Truthy(st.lastClicked)
        {
          assert nodes[1..][k] == nodes[k + 1];
        }
      }
      SettledAddedIdle(st, nodes[1..]);
    }
  }

  /** Without removals, a callback only sets markers and leaves what it added
      settled. */
  lemma {:induction false} RecordsSettle(st: MenuPath, muts: seq<Mutation>)
    requires !RemovesMenu(muts)
    ensures MarkersGrow(st, OnRecords(st, muts))
    ensures AllSettled(OnRecords(st, muts), muts)
    decreases |muts|
  {
    if muts != [] {
      RemovesMenuCons(muts);
      var a := OnAddedNodes(st, muts[0].added);
      AddedSettles(st, muts[0].added);
      RecordsSettle(a, muts[1..]);
      var r := OnRecords(st, muts);
      assert r == OnRecords(a, muts[1..]);
      SettledGrows(a, r, muts[0].added);
      forall j | 0 <= j < |muts|
        ensures Settled(r, muts[j].added)
      {
        if j > 0 {
          assert muts[1..][j - 1] == muts[j];
        }
      }
    }
  }

  /** Settled records without removals change nothing. */
  lemma {:induction false} SettledRecordsIdle(st: MenuPath, muts: seq<Mutation>)
    requires !RemovesMenu(muts) && AllSettled(st, muts)
    ensures OnRecords(st, muts) == st
    decreases |muts|
  {
    if muts != [] {
      RemovesMenuCons(muts);
      assert Settled(st, muts[0].added);
      SettledAddedIdle(st, muts[0].added);
      assert AllSettled(st, muts[1..]) by {
        forall j | 0 <= j < |muts[1..]| ensures Settled(st, muts[1..][j].added) {
          assert muts[1..][j] == muts[j + 1];
        }
      }
      SettledRecordsIdle(st, muts[1..]);
    }
  }

  /** A callback that sees a menu removed ends with no name and no tooltip. */
  lemma {:induction false} RemovalClears(st: MenuPath, muts: seq<Mutation>)
    requires RemovesMenu(muts)
    ensures OnRecords(st, muts).lastClicked.None? && OnRecords(st, muts).tooltip.None?
    decreases |muts|
  {
    var a := OnAddedNodes(st, muts[0].added);
    var b := OnRemovedNodes(a, muts[0].removed);
    RemovesMenuCons(muts);
    if HasMenu(muts[0].removed) {
      IdleRecords(b, muts[1..]);
    } else {
      RemovalClears(b, muts[1..]);
    }
  }

  /** A second observer delivering the same records, as happens when an observer
      from an earlier setup was never disconnected, changes nothing more: the
      markers turn every repeated injection away. */
  lemma DuplicateDeliveryHarmless(st: MenuPath, muts: seq<Mutation>)
    ensures OnRecords(OnRecords(st, muts), muts) == OnRecords(st, muts)
  {
    var r := OnRecords(st, muts);
    if RemovesMenu(muts) {
      RemovalClears(st, muts);
      IdleRecords(r, muts);
    } else {
      RecordsSettle(st, muts);
      SettledRecordsIdle(r, muts);
    }
  }

  /** Right-clicking an item whose output image is served as
      `<path>?filename=<f>&...`, then opening the menu and hovering the new entry,
      shows `Path: output/<f>`; once the menu closes, the next menu that opens
      without a right-click gets no entry. */
  lemma ShowPathScenario(st: MenuPath, path: string, f: string, rest: string, w: nat, h: nat, i: nat, j: nat)
    requires st.enabled && i < |st.menus| && j < |st.menus| && i != j
    requires !st.menus[i].processed && st.menus[i].rootList.Some?
    requires '?' !in path && '?' !in f && '?' !in rest && f != "" && '&' !in f
    requires rest == [] || rest[0] == '&'
    ensures var img := Image(Some(path + "?" + FilenameKey + "=" + f + rest), w, h);
      var clicked := HandleRightClick(st, ClickTarget(Some(TaskItem(Some(img)))));
      var shown := OnMenuAdded(clicked, i);
      var hovered := HoverShowPath(shown);
      var closed := OnMenuRemoved(hovered);
      && shown.menus[i].rootList.value == [ShowPathItem] + st.menus[i].rootList.value
      && hovered.tooltip == Some(TooltipText(f))
      && OnMenuAdded(closed, j).menus[j] == st.menus[j]
  {
    FilenameOfUrl(path, f, rest, []);
    assert path + "?" + FilenameKey + "=" + f + rest + [] == path + "?" + FilenameKey + "=" + f + rest;
  }

  /** Every transition keeps the feature valid. */
  lemma TransitionsKeepValid(st: MenuPath, t: ClickTarget, muts: seq<Mutation>, i: nat)
    requires MenuValid(st)
    ensures MenuValid(Setup(st)) && MenuValid(HandleRightClick(st, t))
    ensures MenuValid(HoverShowPath(st)) && MenuValid(LeaveShowPath(st))
    ensures MenuValid(Observe(st, muts))
    ensures i < |st.menus| ==> MenuValid(MenuOpens(st, i)) && MenuValid(MenuCloses(st, i))
    ensures MenuValid(Cleanup(st)) && MenuValid(CleanupAsWritten(st))
  {
    if st.hooked && st.enabled {
      RecordsKeepName(st, muts);
    }
  }

  lemma {:induction false} RecordsKeepName(st: MenuPath, muts: seq<Mutation>)
    ensures var r := OnRecords(st, muts);
            r.lastClicked == st.lastClicked || r.lastClicked.None?
    decreases |muts|
  {
    if muts != [] {
      var a := OnAddedNodes(st, muts[0].added);
      var b := OnRemovedNodes(a, muts[0].removed);
      RecordsKeepName(b, muts[1..]);
    }
  }

  /** How many "Show Path" entries a menu contributes to the document. */
  function InDocument(m: Menu): nat {
    if m.attached && m.rootList.Some? then Count(m.rootList.value) else 0
  }

  /** How many "Show Path" entries the document holds. */
  function EntryCount(menus: seq<Menu>): nat
    decreases |menus|
  {
    if menus == [] then 0 else InDocument(menus[0]) + EntryCount(menus[1..])
  }

  function Count(items: seq<MenuItem>): nat
    decreases |items|
  {
    if items == [] then 0 else (if items[0] == ShowPathItem then 1 else 0) + Count(items[1..])
  }

  /** The list without its first "Show Path" entry. */
  function RemoveFirst(items: seq<MenuItem>): (r: seq<MenuItem>)
    ensures Count(r) == if Count(items) == 0 then 0 else Count(items) - 1
    decreases |items|
  {
    if items == [] then []
    else if items[0] == ShowPathItem then items[1..]
    else [items[0]] + RemoveFirst(items[1..])
  }

  /** The list without any "Show Path" entry, the host's entries in order. */
  function RemoveAll(items: seq<MenuItem>): (r: seq<MenuItem>)
    ensures Count(r) == 0
    ensures forall x :: x in r <==> x in items && x != ShowPathItem
    decreases |items|
  {
    if items == [] then []
    else if items[0] == ShowPathItem then RemoveAll(items[1..])
    else [items[0]] + RemoveAll(items[1..])
  }

  /** The menu holding the first entry in the document, if there is one. */
  function FirstEntryHolder(menus: seq<Menu>): (r: Option<nat>)
    ensures r.None? <==> forall k :: 0 <= k < |menus| ==> InDocument(menus[k]) == 0
    ensures r.Some? ==> && r.value < |menus| && InDocument(menus[r.value]) > 0
                        && forall k :: 0 <= k < r.value ==> InDocument(menus[k]) == 0
    decreases |menus|
  {
    if menus == [] then None
    else if InDocument(menus[0]) > 0 then Some(0)
    else match FirstEntryHolder(menus[1..])
      case None => None
      case Some(j) => Some(j + 1)
  }

  /** `document.querySelector('#luciano-show-path-item')?.remove()`: the first
      entry in the document goes. */
  function RemoveFirstEntry(menus: seq<Menu>): (r: seq<Menu>)
    ensures |r| == |menus|
    ensures FirstEntryHolder(menus).None? ==> r == menus
    ensures FirstEntryHolder(menus).Some? ==>
      var j := FirstEntryHolder(menus).value;
      r == menus[j := menus[j].(rootList := Some(RemoveFirst(menus[j].rootList.value)))]
    ensures EntryCount(r) == if EntryCount(menus) == 0 then 0 else EntryCount(menus) - 1
    decreases |menus|
  {
    if menus == [] then []
    else if InDocument(menus[0]) > 0 then
      [menus[0].(rootList := Some(RemoveFirst(menus[0].rootList.value)))] + menus[1..]
    else
      var r := [menus[0]] + RemoveFirstEntry(menus[1..]);
      assert r[1..] == RemoveFirstEntry(menus[1..]);
      r
  }

  /** Every entry in the document removed; menus outside it stay as they are. */
  function RemoveEveryEntry(menus: seq<Menu>): (r: seq<Menu>)
    ensures |r| == |menus| && EntryCount(r) == 0
    ensures forall k :: 0 <= k < |menus| ==>
      r[k] == if menus[k].attached && menus[k].rootList.Some?
              then menus[k].(rootList := Some(RemoveAll(menus[k].rootList.value)))
              else menus[k]
    decreases |menus|
  {
    if menus == [] then []
    else
      var m := if menus[0].attached && menus[0].rootList.Some?
               then menus[0].(rootList := Some(RemoveAll(menus[0].rootList.value)))
               else menus[0];
      var r := [m] + RemoveEveryEntry(menus[1..]);
      assert r[1..] == RemoveEveryEntry(menus[1..]);
      r
  }

  /** `cleanup` as written: ignored when disabled; otherwise disables, detaches the
      handler and the observer, removes the tooltip and the first entry in the
      document. The remembered name and the menus' markers stay. */
  function CleanupAsWritten(st: MenuPath): (r: MenuPath)
    ensures !st.enabled ==> r == st
    ensures st.enabled ==> !r.enabled && !r.hooked && r.tooltip.None? && r.lastClicked == st.lastClicked
    ensures st.enabled ==> r.menus == RemoveFirstEntry(st.menus)
    ensures st.enabled ==> EntryCount(r.menus) == if EntryCount(st.menus) == 0 then 0 else EntryCount(st.menus) - 1
  {
    if !st.enabled then st
    else st.(enabled := false, hooked := false, tooltip := None, menus := RemoveFirstEntry(st.menus))
  }

  /** `cleanup` as intended (see the findings): as written, but every entry in the
      document goes. */
  function Cleanup(st: MenuPath): (r: MenuPath)
    ensures !st.enabled ==> r == st
    ensures st.enabled ==> !r.enabled && !r.hooked && r.tooltip.None? && r.lastClicked == st.lastClicked
    ensures st.enabled ==> r.menus == RemoveEveryEntry(st.menus)
    ensures st.enabled ==> EntryCount(r.menus) == 0 && |r.menus| == |st.menus|
  {
    if !st.enabled then st
    else st.(enabled := false, hooked := false, tooltip := None, menus := RemoveEveryEntry(st.menus))
  }

  /** Two open menus that each received the entry: the cleanup as written leaves
      one entry behind, the corrected cleanup leaves none. */
  lemma CleanupLeavesEntry(st: MenuPath)
    requires st.enabled && Truthy(st.lastClicked)
    requires st.menus == [Menu(true, false, Some([])), Menu(true, false, Some([]))]
    ensures var w := OnMenuAdded(OnMenuAdded(st, 0), 1);
            && EntryCount(w.menus) == 2
            && EntryCount(CleanupAsWritten(w).menus) == 1
            && EntryCount(Cleanup(w).menus) == 0
  {
    var a := OnMenuAdded(st, 0);
    assert [ShowPathItem] + [] == [ShowPathItem];
    assert a.menus[0] == Menu(true, true, Some([ShowPathItem])) && a.menus[1] == st.menus[1];
    var w := OnMenuAdded(a, 1);
    assert w.menus[0] == a.menus[0] && w.menus[1] == Menu(true, true, Some([ShowPathItem]));
    assert w.menus == [Menu(true, true, Some([ShowPathItem])), Menu(true, true, Some([ShowPathItem]))];
    assert Count([ShowPathItem]) == 1 by {
      assert [ShowPathItem][1..] == [];
    }
    var ms := w.menus;
    assert ms[1..] == [Menu(true, true, Some([ShowPathItem]))];
    assert ms[1..][1..] == [];
    assert EntryCount(ms[1..][1..]) == 0;
  }

  /** Right-click, menu 0 opens with the entry and closes, right-click again,
      menu 1 opens with the entry, then the feature is switched off: the cleanup as
      written queries the document, so it removes menu 1's entry, the one the user
      can see, and leaves the closed menu 0 as it was. */
  lemma ReopenedMenuCleaned(st: MenuPath, t: ClickTarget)
    requires st.enabled && st.hooked && Truthy(ClickedFilename(t))
    requires st.menus == [Menu(false, false, Some([])), Menu(false, false, Some([]))]
    ensures var a := MenuOpens(HandleRightClick(st, t), 0);
      var e := MenuOpens(HandleRightClick(MenuCloses(a, 0), t), 1);
      var r := CleanupAsWritten(e);
      && a.menus[0] == Menu(true, true, Some([ShowPathItem]))
      && e.menus == [Menu(false, true, Some([ShowPathItem])), Menu(true, true, Some([ShowPathItem]))]
      && EntryCount(e.menus) == 1
      && r.menus == [e.menus[0], Menu(true, true, Some([]))]
      && EntryCount(r.menus) == 0
  {
    assert [ShowPathItem] + [] == [ShowPathItem];
    var a := MenuOpens(HandleRightClick(st, t), 0);
    assert a.menus == [Menu(true, true, Some([ShowPathItem])), Menu(false, false, Some([]))];
    var c := MenuCloses(a, 0);
    assert c.menus == [Menu(false, true, Some([ShowPathItem])), Menu(false, false, Some([]))];
    var e := MenuOpens(HandleRightClick(c, t), 1);
    assert e.menus == [Menu(false, true, Some([ShowPathItem])), Menu(true, true, Some([ShowPathItem]))];
    assert Count([ShowPathItem]) == 1 by {
      assert [ShowPathItem][1..] == [];
    }
    var ms := e.menus;
    assert ms[1..][1..] == [];
    assert EntryCount(ms[1..]) == 1;
    assert FirstEntryHolder(ms) == Some(1);
  }

  lemma {:induction false} CountCoversMenus(ms: seq<Menu>, j: nat, k: nat)
    requires j < k < |ms|
    ensures EntryCount(ms) >= InDocument(ms[j]) + InDocument(ms[k])
    decreases |ms|
  {
    if j == 0 {
      CountCoversMenu(ms[1..], k - 1);
    } else {
      CountCoversMenus(ms[1..], j - 1, k - 1);
    }
  }

  lemma {:induction false} CountCoversMenu(ms: seq<Menu>, k: nat)
    requires k < |ms|
    ensures EntryCount(ms) >= InDocument(ms[k])
    decreases |ms|
  {
    if k > 0 {
      CountCoversMenu(ms[1..], k - 1);
    }
  }

  /** In a list holding one entry, removing the first entry removes them all. */
  lemma {:induction false} RemoveFirstOfOne(items: seq<MenuItem>)
    requires Count(items) == 1
    ensures RemoveFirst(items) == RemoveAll(items)
    decreases |items|
  {
    if items[0] == ShowPathItem {
      RemoveAllNone(items[1..]);
    } else {
      RemoveFirstOfOne(items[1..]);
    }
  }

  /** With at most one entry in the document the cleanup as written does all the
      corrected one does: the two differ only once a second entry exists. */
  lemma CleanupsAgreeOnOneEntry(st: MenuPath)
    requires EntryCount(st.menus) <= 1
    ensures CleanupAsWritten(st) == Cleanup(st)
  {
    if st.enabled {
      var a := RemoveFirstEntry(st.menus);
      var b := RemoveEveryEntry(st.menus);
      forall k | 0 <= k < |st.menus|
        ensures a[k] == b[k]
      {
        var m := st.menus[k];
        if m.attached && m.rootList.Some? {
          CountCoversMenu(st.menus, k);
          match FirstEntryHolder(st.menus)
          case None =>
            RemoveAllNone(m.rootList.value);
          case Some(j) =>
            if j < k {
              CountCoversMenus(st.menus, j, k);
            }
            if j == k {
              RemoveFirstOfOne(m.rootList.value);
            } else {
              RemoveAllNone(m.rootList.value);
            }
        }
      }
      assert a == b;
    }
  }

  lemma {:induction false} RemoveAllNone(items: seq<MenuItem>)
    requires Count(items) == 0
    ensures RemoveAll(items) == items
    decreases |items|
  {
    if items != [] {
      RemoveAllNone(items[1..]);
      assert items == [items[0]] + items[1..];
    }
  }

  /** Menus without entries in the document come through the corrected cleanup
      unchanged. */
  lemma {:induction false} NoEntriesUnchanged(menus: seq<Menu>)
    requires EntryCount(menus) == 0
    ensures RemoveEveryEntry(menus) == menus
    decreases |menus|
  {
    if menus != [] {
      if menus[0].attached && menus[0].rootList.Some? {
        RemoveAllNone(menus[0].rootList.value);
      }
      NoEntriesUnchanged(menus[1..]);
      assert menus == [menus[0]] + menus[1..];
    }
  }
}
