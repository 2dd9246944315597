/** The controller that ties the two path features to the "Enable Path Display"
    setting: turning it on sets both features up, turning it off cleans both up,
    and on page load the features are set up when the stored value (default on)
    says so. */
module PathDisplay {
  import opened Optional
  import ContextMenuPath
  import ViewerPath

  const SettingId := "Luciano.PathDisplay.Enabled"
  const DefaultEnabled := true

  /** The context-menu feature and the viewer feature. */
  datatype Controller = Controller(menu: ContextMenuPath.MenuPath, viewer: ViewerPath.Viewer)

  predicate Valid(c: Controller) {
    ContextMenuPath.MenuValid(c.menu) && ViewerPath.ViewerValid(c.viewer)
  }

  /** `pathDisplayController.setup`: both features end up enabled; the
      menus and masks are untouched. */
  function Setup(c: Controller): (r: Controller)
    ensures r.menu.enabled && r.viewer.enabled
    ensures r.menu.menus == c.menu.menus && r.menu.lastClicked == c.menu.lastClicked
    ensures r.viewer.masks == c.viewer.masks
  {
    Controller(ContextMenuPath.Setup(c.menu), ViewerPath.Setup(c.viewer))
  }

  /** `pathDisplayController.cleanup` as written: both features end up disabled.
      Each feature that was enabled removes only the first of its elements in the
      document; the menu feature also drops its tooltip, and the viewer feature
      unmarks the masks in the document. */
  function CleanupAsWritten(c: Controller): (r: Controller)
    ensures !r.menu.enabled && !r.viewer.enabled
    ensures c.menu.enabled ==> r.menu.tooltip.None? && r.menu.lastClicked == c.menu.lastClicked
    ensures c.menu.enabled ==> var n := ContextMenuPath.EntryCount(c.menu.menus);
      ContextMenuPath.EntryCount(r.menu.menus) == (if n == 0 then 0 else n - 1)
    ensures c.viewer.enabled ==> !r.viewer.observing && r.viewer.navigation.None?
    ensures c.viewer.enabled ==> var n := ViewerPath.OverlayCount(c.viewer.masks);
      ViewerPath.OverlayCount(r.viewer.masks) == (if n == 0 then 0 else n - 1)
    ensures c.viewer.enabled ==>
      forall k :: 0 <= k < |r.viewer.masks| && r.viewer.masks[k].attached ==> !r.viewer.masks[k].marked
  {
    Controller(ContextMenuPath.CleanupAsWritten(c.menu), ViewerPath.CleanupAsWritten(c.viewer))
  }

  /** The corrected cleanup (see the findings): both features end up disabled, and
      whatever was enabled leaves no entry, tooltip, overlay or viewer marker in the
      document. The menus' own processed markers stay, as in the program. */
  function Cleanup(c: Controller): (r: Controller)
    ensures !r.menu.enabled && !r.viewer.enabled
    ensures c.menu.enabled ==> ContextMenuPath.EntryCount(r.menu.menus) == 0 && r.menu.tooltip.None?
    ensures c.viewer.enabled ==> ViewerPath.Quiescent(r.viewer)
  {
    Controller(ContextMenuPath.Cleanup(c.menu), ViewerPath.Cleanup(c.viewer))
  }

  /** While the document holds at most one entry and at most one overlay, the
      cleanup as written and the corrected one coincide. */
  lemma CleanupsAgreeOnOneItem(c: Controller)
    requires ContextMenuPath.EntryCount(c.menu.menus) <= 1
    requires ViewerPath.OverlayCount(c.viewer.masks) <= 1
    ensures CleanupAsWritten(c) == Cleanup(c)
  {
    ContextMenuPath.CleanupsAgreeOnOneEntry(c.menu);
    ViewerPath.CleanupsAgreeOnOneOverlay(c.viewer);
  }

  /** The setting's `onChange`: both features follow the new value. Switching on
      leaves the menus and masks alone; switching off runs the controller's
      cleanup as written, so each enabled feature removes at most one of its
      elements from the document. */
  function OnSettingChange(c: Controller, isEnabled: bool): (r: Controller)
    ensures r.menu.enabled == isEnabled && r.viewer.enabled == isEnabled
    ensures isEnabled ==> r.menu.menus == c.menu.menus && r.viewer.masks == c.viewer.masks
    ensures !isEnabled && c.menu.enabled ==> var n := ContextMenuPath.EntryCount(c.menu.menus);
      ContextMenuPath.EntryCount(r.menu.menus) == (if n == 0 then 0 else n - 1)
    ensures !isEnabled && c.viewer.enabled ==> var n := ViewerPath.OverlayCount(c.viewer.masks);
      ViewerPath.OverlayCount(r.viewer.masks) == (if n == 0 then 0 else n - 1)
  {
    if isEnabled then Setup(c) else CleanupAsWritten(c)
  }

  /** Page load: the stored value, or the setting's declared default (true) that
      the host's settings store answers with when none is stored, decides whether
      both features are set up. */
  function PageLoad(c: Controller, stored: Option<bool>): (r: Controller)
    ensures stored.None? || stored.value ==> r.menu.enabled && r.viewer.enabled
    ensures stored.None? || stored.value ==> r == Setup(c)
    ensures stored == Some(false) ==> r == c
  {
    if stored.GetOr(DefaultEnabled) then Setup(c) else c
  }

  /** Delivering the same setting value twice is the same as delivering it once. */
  lemma SettingChangeIdempotent(c: Controller, isEnabled: bool)
    ensures OnSettingChange(OnSettingChange(c, isEnabled), isEnabled) == OnSettingChange(c, isEnabled)
  {
  }

  /** Every setting change keeps both features valid. */
  lemma SettingChangeKeepsValid(c: Controller, isEnabled: bool)
    requires Valid(c)
    ensures Valid(OnSettingChange(c, isEnabled))
    ensures OnSettingChange(c, isEnabled).menu.hooked == isEnabled
    ensures OnSettingChange(c, isEnabled).viewer.observing == isEnabled
  {
    ContextMenuPath.TransitionsKeepValid(c.menu, ContextMenuPath.ClickTarget(None), [], 0);
    ViewerPath.CleanupKeepsValid(c.viewer);
  }

  /** Switching the setting on and back off returns a clean page to exactly the
      state it was in. */
  lemma OnThenOffRestores(c: Controller)
    requires !c.menu.enabled && !c.menu.hooked && c.menu.tooltip.None?
    requires ContextMenuPath.EntryCount(c.menu.menus) == 0
    requires ViewerPath.Quiescent(c.viewer)
    ensures OnSettingChange(OnSettingChange(c, true), false) == c
  {
    ContextMenuPath.NoEntriesUnchanged(c.menu.menus);
    ContextMenuPath.CleanupsAgreeOnOneEntry(ContextMenuPath.Setup(c.menu));
    var s := ViewerPath.Setup(c.viewer);
    assert ViewerPath.FirstOverlayHolder(s.masks).None?;
    ViewerPath.NoOverlays(s.masks);
    ViewerPath.CleanupsAgreeOnOneOverlay(s);
    var v := ViewerPath.Cleanup(s);
    assert v.masks == c.viewer.masks;
  }
}
