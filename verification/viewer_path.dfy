/** The full-screen viewer overlay: when a mask element appears, it is marked, the
    active slide's image is read, and a label `output/<file> (<w> x <h>)` is added
    to the mask's content; while the viewer navigates, the label is refreshed as
    `output/<file> (<w>x<h>)`. Masks, slides and overlays are abstract records;
    the settling delays are treated as immediate. */
module ViewerPath {
  import opened Optional
  import opened Strings
  import opened Urls

  /** The selectors of the host's mask elements, in the order of the selector list. */
  const MaskSelectors := [".p-component-overlay", ".p-galleria-mask", ".p-dialog-mask"]

  /** A node is itself a mask when it carries the class named by one of the
      selectors with its leading '.' removed. */
  predicate HasMaskClass(classes: set<string>) {
    exists i :: 0 <= i < |MaskSelectors| && MaskSelectors[i][1..] in classes
  }

  /** Stripping the dots yields exactly the three host class names. */
  lemma MaskClassNames(classes: set<string>)
    ensures HasMaskClass(classes) <==>
      "p-component-overlay" in classes || "p-galleria-mask" in classes || "p-dialog-mask" in classes
  {
    assert MaskSelectors[0][1..] == "p-component-overlay";
    assert MaskSelectors[1][1..] == "p-galleria-mask";
    assert MaskSelectors[2][1..] == "p-dialog-mask";
  }

  /** A node added to the document: a non-element, or an element with its classes,
      its own position among the masks, and the position of the first mask inside it
      (what `querySelector` with the selector list would find). */
  datatype AddedNode =
    | NonElement
    | Element(classes: set<string>, index: nat, descendantMask: Option<nat>)

  /** The mask an added node brings: the node itself when it has a mask class,
      otherwise its first mask descendant; nothing for a non-element. */
  function MaskOf(n: AddedNode): (r: Option<nat>)
    ensures n.NonElement? ==> r.None?
    ensures n.Element? && HasMaskClass(n.classes) ==> r == Some(n.index)
    ensures n.Element? && !HasMaskClass(n.classes) ==> r == n.descendantMask
  {
    match n
    case NonElement => None
    case Element(classes, index, descendant) =>
      if HasMaskClass(classes) then Some(index) else descendant
  }

  /** What `extractImageData` returns. */
  datatype ImageData = ImageData(filename: string, width: nat, height: nat)

  /** `extractImageData`: nothing for a missing element, a missing or empty `src`,
      a missing or empty query segment, a missing or empty `filename`, or a zero
      dimension; otherwise the file name and the intrinsic size. */
  function ExtractImageData(img: Option<Image>): (r: Option<ImageData>)
    ensures r.Some? <==> img.Some? && FilenameFromSrc(img.value.src).Some?
                         && img.value.naturalWidth > 0 && img.value.naturalHeight > 0
    ensures r.Some? ==> r.value.filename == FilenameFromSrc(img.value.src).value
                        && r.value.width == img.value.naturalWidth
                        && r.value.height == img.value.naturalHeight
  {
    match img
    case None => None
    case Some(i) =>
      match FilenameFromSrc(i.src)
      case None => None
      case Some(f) => if i.naturalWidth == 0 || i.naturalHeight == 0 then None
                      else Some(ImageData(f, i.naturalWidth, i.naturalHeight))
  }

  /** An image served as `/view?filename=<f>&...` with a non-zero size yields `f`
      and that size. */
  lemma ExtractFromUrl(path: string, f: string, rest: string, w: nat, h: nat)
    requires '?' !in path && '?' !in f && '?' !in rest
    requires f != "" && '&' !in f
    requires rest == [] || rest[0] == '&'
    requires w > 0 && h > 0
    ensures ExtractImageData(Some(Image(Some(path + "?" + FilenameKey + "=" + f + rest), w, h)))
            == Some(ImageData(f, w, h))
  {
    FilenameOfUrl(path, f, rest, []);
    assert path + "?" + FilenameKey + "=" + f + rest + [] == path + "?" + FilenameKey + "=" + f + rest;
  }

  /** A `.p-galleria-item`: whether `data-p-active="true"`, whether its inline style
      hides it, and its first `img.galleria-image`. */
  datatype Slide = Slide(active: bool, hidden: bool, image: Option<Image>)

  /** The first element satisfying `p`. */
  function FirstIndex<T>(s: seq<T>, p: T -> bool): (r: Option<nat>)
    ensures r.None? <==> forall i :: 0 <= i < |s| ==> !p(s[i])
    ensures r.Some? ==> r.value < |s| && p(s[r.value])
                        && forall i :: 0 <= i < r.value ==> !p(s[i])
    decreases |s|
  {
    if |s| == 0 then None
    else if p(s[0]) then Some(0)
    else match FirstIndex(s[1..], p)
      case None => None
      case Some(i) => Some(i + 1)
  }

  /** The slide `extractImageDataFromActiveSlide` reads: the first active one, or
      else the first one not hidden. */
  function ActiveSlide(slides: seq<Slide>): (r: Option<nat>)
    ensures r.Some? ==> r.value < |slides|
    ensures r.Some? && slides[r.value].active ==>
      forall j :: 0 <= j < r.value ==> !slides[j].active
    ensures r.Some? && !slides[r.value].active ==>
      && (forall j :: 0 <= j < |slides| ==> !slides[j].active)
      && !slides[r.value].hidden
      && (forall j :: 0 <= j < r.value ==> slides[j].hidden)
    ensures r.None? <==> forall j :: 0 <= j < |slides| ==> !slides[j].active && slides[j].hidden
  {
    match FirstIndex(slides, (sl: Slide) => sl.active)
    case Some(i) => Some(i)
    case None => FirstIndex(slides, (sl: Slide) => !sl.hidden)
  }

  /** A mask element: whether it is in the document, the marker attribute
      `data-luciano-initialized`, its slides, the first `img.galleria-image`
      anywhere in it, whether it has a `.p-galleria-content`, and the texts of the
      `#luciano-viewer-path` overlays inside it, in document order. A mask the host
      has taken out of the document keeps its contents but is no longer found by
      document queries. */
  datatype Mask = Mask(
    attached: bool,
    marked: bool,
    slides: seq<Slide>,
    firstImage: Option<Image>,
    hasContent: bool,
    overlays: seq<string>)

  /** `extractImageDataFromActiveSlide`: the active slide's image, or the mask's
      first image when no slide qualifies. */
  function ExtractFromActiveSlide(m: Mask): (r: Option<ImageData>)
    ensures ActiveSlide(m.slides).Some? ==> r == ExtractImageData(m.slides[ActiveSlide(m.slides).value].image)
    ensures ActiveSlide(m.slides).None? ==> r == ExtractImageData(m.firstImage)
  {
    match ActiveSlide(m.slides)
    case Some(i) => ExtractImageData(m.slides[i].image)
    case None => ExtractImageData(m.firstImage)
  }

  /** The text an overlay is created with. */
  function CreationLabel(d: ImageData): string {
    "output/" + d.filename + " (" + NatToString(d.width) + " x " + NatToString(d.height) + ")"
  }

  /** The text a refresh writes: the same, but without spaces around the 'x'. */
  function RefreshLabel(d: ImageData): string {
    "output/" + d.filename + " (" + NatToString(d.width) + "x" + NatToString(d.height) + ")"
  }

  /** The two formats share everything but the separator between the dimensions,
      so a refreshed overlay never reads as freshly created. */
  lemma LabelsDiffer(d: ImageData)
    ensures var prefix := "output/" + d.filename + " (" + NatToString(d.width);
            var suffix := NatToString(d.height) + ")";
            && CreationLabel(d) == prefix + " x " + suffix
            && RefreshLabel(d) == prefix + "x" + suffix
    ensures |CreationLabel(d)| == |RefreshLabel(d)| + 2
    ensures CreationLabel(d) != RefreshLabel(d)
  {
    var prefix := "output/" + d.filename + " (" + NatToString(d.width);
    var suffix := NatToString(d.height) + ")";
    assert CreationLabel(d) == prefix + " x " + suffix;
    assert RefreshLabel(d) == prefix + "x" + suffix;
  }

  /** The feature: the `enabled` flag, whether the document observer is connected,
      the mask whose item container the navigation observer watches, and every mask
      the host has created, each flagged with whether it is still in the document.
      The sequence is taken to be in document order: a mask the host re-attaches
      keeps its place, although the host appends it at the end of the body. */
  datatype Viewer = Viewer(enabled: bool, observing: bool, navigation: Option<nat>, masks: seq<Mask>)

  /** Observers run exactly while enabled, and the navigation observer watches a
      mask that exists. */
  predicate ViewerValid(v: Viewer) {
    && v.observing == v.enabled
    && (v.navigation.Some? ==> v.enabled && v.navigation.value < |v.masks|)
  }

  /** `setup`: ignored when enabled; otherwise enables and connects the observer. */
  function Setup(v: Viewer): (r: Viewer)
    ensures v.enabled ==> r == v
    ensures !v.enabled ==> r.enabled && r.observing
    ensures r.navigation == v.navigation && r.masks == v.masks
  {
    if v.enabled then v else v.(enabled := true, observing := true)
  }

  /** `updatePathDisplay`: when enabled, the mask's data can be read and the mask
      holds an overlay, the first overlay shows the refresh label; otherwise
      nothing changes. */
  function UpdatePathDisplay(v: Viewer, i: nat): (r: Viewer)
    requires i < |v.masks|
    ensures !v.enabled || ExtractFromActiveSlide(v.masks[i]).None? || v.masks[i].overlays == [] ==> r == v
    ensures v.enabled && ExtractFromActiveSlide(v.masks[i]).Some? && v.masks[i].overlays != [] ==>
      r == v.(masks := v.masks[i := v.masks[i].(overlays :=
             v.masks[i].overlays[0 := RefreshLabel(ExtractFromActiveSlide(v.masks[i]).value)])])
  {
    if !v.enabled then v
    else
      var m := v.masks[i];
      match ExtractFromActiveSlide(m)
      case None => v
      case Some(d) =>
        if m.overlays == [] then v
        else v.(masks := v.masks[i := m.(overlays := m.overlays[0 := RefreshLabel(d)])])
  }

  /** `handleModalInjection`: ignored when disabled; a marked mask is only
      refreshed; an unmarked mask is marked first, and only when its data can be
      read and it has a content element does it get a new overlay (and the
      navigation observer moves to it). */
  function HandleModalInjection(v: Viewer, i: nat): (r: Viewer)
    requires i < |v.masks|
    ensures |r.masks| == |v.masks|
    ensures !v.enabled ==> r == v
    ensures v.enabled && v.masks[i].marked ==> r == UpdatePathDisplay(v, i)
    ensures v.enabled && !v.masks[i].marked ==>
      var d := ExtractFromActiveSlide(v.masks[i]);
      && r.masks[i].marked
      && (d.Some? && v.masks[i].hasContent ==>
            r.masks[i].overlays == v.masks[i].overlays + [CreationLabel(d.value)]
            && r.navigation == Some(i))
      && (d.None? || !v.masks[i].hasContent ==>
            r.masks[i].overlays == v.masks[i].overlays && r.navigation == v.navigation)
    ensures forall k :: 0 <= k < |v.masks| && k != i ==> r.masks[k] == v.masks[k]
    ensures r.enabled == v.enabled && r.observing == v.observing
  {
    if !v.enabled then v
    else if v.masks[i].marked then UpdatePathDisplay(v, i)
    else
      var m := v.masks[i].(marked := true);
      match ExtractFromActiveSlide(m)
      case None => v.(masks := v.masks[i := m])
      case Some(d) =>
        if !m.hasContent then v.(masks := v.masks[i := m])
        else v.(masks := v.masks[i := m.(overlays := m.overlays + [CreationLabel(d)])],
                navigation := Some(i))
  }

  /** What happens around the feature: a node added to the document, as the
      observer reports it (after the settling delay); an image added under the
      watched item container; the host showing other slides in a mask; the host
      putting a mask into the document or taking it out. */
  datatype ViewerEvent =
    | NodeAdded(node: AddedNode)
    | ImageAdded(mask: nat)
    | HostShows(mask: nat, slides: seq<Slide>, firstImage: Option<Image>)
    | HostAttaches(mask: nat)
    | HostDetaches(mask: nat)

  /** The events the feature itself reacts to, as opposed to changes the host makes. */
  predicate FeatureOnly(evs: seq<ViewerEvent>) {
    forall j :: 0 <= j < |evs| ==> evs[j].NodeAdded? || evs[j].ImageAdded?
  }

  function Handle(v: Viewer, ev: ViewerEvent): (r: Viewer)
    ensures |r.masks| == |v.masks|
  {
    match ev
    case NodeAdded(node) =>
      var i := MaskOf(node);
      if v.enabled && i.Some? && i.value < |v.masks| then HandleModalInjection(v, i.value) else v
    case ImageAdded(i) =>
      if v.enabled && v.navigation == Some(i) && i < |v.masks| then UpdatePathDisplay(v, i) else v
    case HostShows(i, slides, first) =>
      if i < |v.masks| then v.(masks := v.masks[i := v.masks[i].(slides := slides, firstImage := first)])
      else v
    case HostAttaches(i) =>
      if i < |v.masks| then v.(masks := v.masks[i := v.masks[i].(attached := true)]) else v
    case HostDetaches(i) =>
      if i < |v.masks| then v.(masks := v.masks[i := v.masks[i].(attached := false)]) else v
  }

  function Replay(v: Viewer, evs: seq<ViewerEvent>): (r: Viewer)
    ensures |r.masks| == |v.masks|
    decreases |evs|
  {
    if evs == [] then v else Replay(Handle(v, evs[0]), evs[1..])
  }

  /** How a mask may evolve from `m0` to `m`: a marked mask stays marked and keeps
      its number of overlays; an unmarked one gains at most one overlay, and only by
      becoming marked. */
  predicate AtMostOnce(m0: Mask, m: Mask) {
    && (m0.marked ==> m.marked && |m.overlays| == |m0.overlays|)
    && (!m0.marked ==> |m.overlays| <= |m0.overlays| + 1
                       && (|m.overlays| > |m0.overlays| ==> m.marked))
  }

  lemma HandleAtMostOnce(v: Viewer, ev: ViewerEvent, k: nat)
    requires k < |v.masks|
    ensures AtMostOnce(v.masks[k], Handle(v, ev).masks[k])
  {
  }

  lemma AtMostOnceTrans(m0: Mask, m1: Mask, m2: Mask)
    requires AtMostOnce(m0, m1) && AtMostOnce(m1, m2)
    ensures AtMostOnce(m0, m2)
  {
  }

  /** However often masks are re-detected, navigated or re-rendered, a mask that
      was already marked never gets another overlay, and an unmarked one gets at
      most one. */
  lemma {:induction false} InjectedAtMostOnce(v: Viewer, evs: seq<ViewerEvent>, k: nat)
    requires k < |v.masks|
    ensures AtMostOnce(v.masks[k], Replay(v, evs).masks[k])
    decreases |evs|
  {
    if evs == [] {
    } else {
      var w := Handle(v, evs[0]);
      HandleAtMostOnce(v, evs[0], k);
      InjectedAtMostOnce(w, evs[1..], k);
      AtMostOnceTrans(v.masks[k], w.masks[k], Replay(w, evs[1..]).masks[k]);
    }
  }

  /** The marker is set before extraction: a mask whose first extraction failed
      stays marked without an overlay, whatever is detected afterwards. */
  lemma FailedMaskNeverInjected(v: Viewer, i: nat, evs: seq<ViewerEvent>)
    requires i < |v.masks| && v.enabled && !v.masks[i].marked && v.masks[i].overlays == []
    requires ExtractFromActiveSlide(v.masks[i]).None?
    ensures var r := Replay(HandleModalInjection(v, i), evs);
            r.masks[i].marked && r.masks[i].overlays == []
  {
    var w := HandleModalInjection(v, i);
    InjectedAtMostOnce(w, evs, i);
  }

  lemma HandleKeepsValid(v: Viewer, ev: ViewerEvent)
    requires ViewerValid(v)
    ensures ViewerValid(Handle(v, ev))
  {
  }

  /** A mask with its marker and overlays removed. */
  function Stripped(m: Mask): Mask {
    m.(marked := false, overlays := [])
  }

  /** Disabled, disconnected, and nothing of this feature left on any mask in the
      document. */
  predicate Quiescent(v: Viewer) {
    && !v.enabled && !v.observing && v.navigation.None?
    && forall k :: 0 <= k < |v.masks| && v.masks[k].attached ==> v.masks[k] == Stripped(v.masks[k])
  }

  /** `cleanup` as intended (see the findings): ignored when disabled; otherwise
      disables, disconnects both observers, and removes every overlay and every
      marker in the document. Masks outside the document are out of reach of
      document queries and stay as they are. */
  function Cleanup(v: Viewer): (r: Viewer)
    ensures !v.enabled ==> r == v
    ensures v.enabled ==> Quiescent(r)
    ensures |r.masks| == |v.masks|
    ensures v.enabled ==> forall k :: 0 <= k < |v.masks| ==>
      r.masks[k] == if v.masks[k].attached then Stripped(v.masks[k]) else v.masks[k]
  {
    if !v.enabled then v
    else Viewer(false, false, None, seq(|v.masks|, k requires 0 <= k < |v.masks| =>
                                          if v.masks[k].attached then Stripped(v.masks[k]) else v.masks[k]))
  }

  /** `cleanup` as written: disables and disconnects both observers;
      `querySelector('#luciano-viewer-path')` finds only the first overlay in the
      document, so only that one is removed; then every marked mask in the
      document is unmarked. */
  function CleanupAsWritten(v: Viewer): (r: Viewer)
    ensures !v.enabled ==> r == v
    ensures v.enabled ==> !r.enabled && !r.observing && r.navigation.None?
    ensures |r.masks| == |v.masks|
    ensures v.enabled ==> forall k :: 0 <= k < |v.masks| ==>
      && r.masks[k].attached == v.masks[k].attached
      && r.masks[k].marked == (v.masks[k].marked && !v.masks[k].attached)
      && r.masks[k].overlays == (if FirstOverlayHolder(v.masks) == Some(k) then v.masks[k].overlays[1..]
                                 else v.masks[k].overlays)
      && r.masks[k].(marked := v.masks[k].marked, overlays := v.masks[k].overlays) == v.masks[k]
    ensures v.enabled ==> OverlayCount(r.masks) == if OverlayCount(v.masks) == 0 then 0 else OverlayCount(v.masks) - 1
  {
    if !v.enabled then v
    else Viewer(false, false, None, Unmark(RemoveFirstOverlay(v.masks)))
  }

  /** Every mask in the document loses its marker; overlays stay. */
  function Unmark(masks: seq<Mask>): (r: seq<Mask>)
    ensures |r| == |masks|
    ensures forall k :: 0 <= k < |masks| ==>
      r[k] == if masks[k].attached then masks[k].(marked := false) else masks[k]
    ensures OverlayCount(r) == OverlayCount(masks)
  {
    var r := seq(|masks|, k requires 0 <= k < |masks| =>
                   if masks[k].attached then masks[k].(marked := false) else masks[k]);
    SameOverlaysSameCount(r, masks);
    r
  }

  /** The overlays a mask contributes to the document. */
  function InDocument(m: Mask): nat {
    if m.attached then |m.overlays| else 0
  }

  /** How many overlays the document holds. */
  function OverlayCount(masks: seq<Mask>): nat
    decreases |masks|
  {
    if masks == [] then 0 else InDocument(masks[0]) + OverlayCount(masks[1..])
  }

  /** The mask holding the first overlay in the document, if there is one. */
  function FirstOverlayHolder(masks: seq<Mask>): (r: Option<nat>)
    ensures r.None? <==> forall k :: 0 <= k < |masks| && masks[k].attached ==> masks[k].overlays == []
    ensures r.Some? ==> && r.value < |masks| && masks[r.value].attached && masks[r.value].overlays != []
                        && forall k :: 0 <= k < r.value && masks[k].attached ==> masks[k].overlays == []
    decreases |masks|
  {
    if masks == [] then None
    else if masks[0].attached && masks[0].overlays != [] then Some(0)
    else match FirstOverlayHolder(masks[1..])
      case None => None
      case Some(j) => Some(j + 1)
  }

  /** The masks with the first overlay in the document removed. */
  function RemoveFirstOverlay(masks: seq<Mask>): (r: seq<Mask>)
    ensures |r| == |masks|
    ensures FirstOverlayHolder(masks).None? ==> r == masks
    ensures FirstOverlayHolder(masks).Some? ==>
      var j := FirstOverlayHolder(masks).value;
      r == masks[j := masks[j].(overlays := masks[j].overlays[1..])]
    ensures OverlayCount(r) == if OverlayCount(masks) == 0 then 0 else OverlayCount(masks) - 1
    decreases |masks|
  {
    if masks == [] then []
    else if masks[0].attached && masks[0].overlays != [] then
      [masks[0].(overlays := masks[0].overlays[1..])] + masks[1..]
    else
      var r := [masks[0]] + RemoveFirstOverlay(masks[1..]);
      assert r[1..] == RemoveFirstOverlay(masks[1..]);
      r
  }

  /** The count depends on the overlays alone. */
  lemma {:induction false} SameOverlaysSameCount(u: seq<Mask>, ms: seq<Mask>)
    requires |u| == |ms|
    requires forall k :: 0 <= k < |ms| ==> InDocument(u[k]) == InDocument(ms[k])
    ensures OverlayCount(u) == OverlayCount(ms)
    decreases |ms|
  {
    if ms != [] {
      SameOverlaysSameCount(u[1..], ms[1..]);
    }
  }

  /** A fresh mask in the document, with content and no slides, whose first image is served as
      `<path>?filename=<f>` with size `w` by `h`. */
  function ServedMask(path: string, f: string, w: nat, h: nat): Mask {
    Mask(true, false, [], Some(Image(Some(path + "?" + FilenameKey + "=" + f), w, h)), true, [])
  }

  lemma ServedMaskReads(path: string, f: string, w: nat, h: nat)
    requires '?' !in path && '?' !in f && '&' !in f && f != ""
    requires w > 0 && h > 0
    ensures ExtractFromActiveSlide(ServedMask(path, f, w, h)) == Some(ImageData(f, w, h))
  {
    ExtractFromUrl(path, f, [], w, h);
    assert path + "?" + FilenameKey + "=" + f + [] == path + "?" + FilenameKey + "=" + f;
    assert ActiveSlide([]).None?;
  }

  /** Two open viewers that each received an overlay: the cleanup as written leaves
      one of the overlays behind, the corrected cleanup leaves none. */
  lemma CleanupLeavesOverlay(path: string, f: string, w: nat, h: nat)
    requires '?' !in path && '?' !in f && '&' !in f && f != ""
    requires w > 0 && h > 0
    ensures var m := ServedMask(path, f, w, h);
            var v := Setup(Viewer(false, false, None, [m, m]));
            var w := HandleModalInjection(HandleModalInjection(v, 0), 1);
            && OverlayCount(w.masks) == 2
            && OverlayCount(CleanupAsWritten(w).masks) == 1
            && OverlayCount(Cleanup(w).masks) == 0
  {
    var m := ServedMask(path, f, w, h);
    ServedMaskReads(path, f, w, h);
    var v := Setup(Viewer(false, false, None, [m, m]));
    var v1 := HandleModalInjection(v, 0);
    assert |v1.masks[0].overlays| == 1 && v1.masks[1] == m;
    var w := HandleModalInjection(v1, 1);
    assert |w.masks[0].overlays| == 1 && |w.masks[1].overlays| == 1;
    assert w.masks == [w.masks[0], w.masks[1]];
    OverlayCountTwo(w.masks[0], w.masks[1]);
    NoOverlays(Cleanup(w).masks);
  }

  /** One viewer at a time: a viewer opens and gets its overlay, closes (its mask
      leaves the document with the overlay inside), and a second viewer opens and
      gets one. The cleanup as written then finds the open viewer's overlay, so
      none is left in the document; the closed viewer's mask is not touched. */
  lemma ReopenedViewerCleaned(path: string, f: string, w: nat, h: nat)
    requires '?' !in path && '?' !in f && '&' !in f && f != ""
    requires w > 0 && h > 0
    ensures var d := ServedMask(path, f, w, h).(attached := false);
            var v := Setup(Viewer(false, false, None, [d, d]));
            var b := HandleModalInjection(Handle(v, HostAttaches(0)), 0);
            var e := HandleModalInjection(Handle(Handle(b, HostDetaches(0)), HostAttaches(1)), 1);
            var r := CleanupAsWritten(e);
            && |e.masks[0].overlays| == 1 && |e.masks[1].overlays| == 1
            && OverlayCount(e.masks) == 1
            && OverlayCount(r.masks) == 0
            && r.masks[1].overlays == [] && r.masks[0] == e.masks[0]
  {
    var d := ServedMask(path, f, w, h).(attached := false);
    var v := Setup(Viewer(false, false, None, [d, d]));
    var b := HandleModalInjection(Handle(v, HostAttaches(0)), 0);
    var e := HandleModalInjection(Handle(Handle(b, HostDetaches(0)), HostAttaches(1)), 1);
    ReopenedViewerState(path, f, w, h);
    assert e.masks == [e.masks[0], e.masks[1]];
    OverlayCountTwo(e.masks[0], e.masks[1]);
    assert FirstOverlayHolder(e.masks) == Some(1);
  }

  lemma ReopenedViewerState(path: string, f: string, w: nat, h: nat)
    requires '?' !in path && '?' !in f && '&' !in f && f != ""
    requires w > 0 && h > 0
    ensures var d := ServedMask(path, f, w, h).(attached := false);
            var v := Setup(Viewer(false, false, None, [d, d]));
            var b := HandleModalInjection(Handle(v, HostAttaches(0)), 0);
            var e := HandleModalInjection(Handle(Handle(b, HostDetaches(0)), HostAttaches(1)), 1);
            && e.enabled && |e.masks| == 2
            && !e.masks[0].attached && |e.masks[0].overlays| == 1
            && e.masks[1].attached && |e.masks[1].overlays| == 1
  {
    var m := ServedMask(path, f, w, h);
    var d := m.(attached := false);
    ServedMaskReads(path, f, w, h);
    var v := Setup(Viewer(false, false, None, [d, d]));
    assert d.(attached := true) == m;
    FirstViewerOpens(v, d);
    SecondViewerOpens(HandleModalInjection(Handle(v, HostAttaches(0)), 0), d);
  }

  /** Opening the first of two unprocessed, readable masks gives it an overlay and
      leaves the second alone. */
  lemma FirstViewerOpens(v: Viewer, d: Mask)
    requires v.enabled && v.masks == [d, d]
    requires !d.marked && d.hasContent && d.overlays == []
    requires ExtractFromActiveSlide(d.(attached := true)).Some?
    ensures var b := HandleModalInjection(Handle(v, HostAttaches(0)), 0);
            b.enabled && |b.masks| == 2 && b.masks[1] == d && |b.masks[0].overlays| == 1
  {
    AttachFirst(v);
  }

  /** The host opening the first of two viewers moves only that mask into the
      document. */
  lemma AttachFirst(v: Viewer)
    requires |v.masks| == 2
    ensures Handle(v, HostAttaches(0)) == v.(masks := [v.masks[0].(attached := true), v.masks[1]])
  {
  }

  /** With one viewer's mask holding its overlay, closing it and opening a second,
      unprocessed and readable mask gives the second its own overlay. */
  lemma SecondViewerOpens(b: Viewer, d: Mask)
    requires b.enabled && |b.masks| == 2 && b.masks[1] == d && |b.masks[0].overlays| == 1
    requires !d.marked && d.hasContent && d.overlays == []
    requires ExtractFromActiveSlide(d.(attached := true)).Some?
    ensures var e := HandleModalInjection(Handle(Handle(b, HostDetaches(0)), HostAttaches(1)), 1);
            && e.enabled && |e.masks| == 2
            && !e.masks[0].attached && |e.masks[0].overlays| == 1
            && e.masks[1].attached && |e.masks[1].overlays| == 1
  {
    SwapViewers(b);
  }

  /** The host closing the first viewer and opening the second moves only the two
      masks' place in the document. */
  lemma SwapViewers(b: Viewer)
    requires |b.masks| == 2
    ensures Handle(Handle(b, HostDetaches(0)), HostAttaches(1))
            == b.(masks := [b.masks[0].(attached := false), b.masks[1].(attached := true)])
  {
  }

  lemma OverlayCountTwo(a: Mask, b: Mask)
    ensures OverlayCount([a, b]) == InDocument(a) + InDocument(b)
  {
    assert [a, b][1..] == [b];
    assert [b][1..] == [];
    assert OverlayCount([]) == 0;
    assert OverlayCount([b]) == InDocument(b) + OverlayCount([]);
  }

  lemma {:induction false} NoOverlays(ms: seq<Mask>)
    requires forall k :: 0 <= k < |ms| && ms[k].attached ==> ms[k].overlays == []
    ensures OverlayCount(ms) == 0
    decreases |ms|
  {
    if ms != [] {
      NoOverlays(ms[1..]);
    }
  }

  /** Each mask's share is part of the document's count, and two masks' shares
      together are too. */
  lemma {:induction false} CountCoversMasks(ms: seq<Mask>, j: nat, k: nat)
    requires j < k < |ms|
    ensures OverlayCount(ms) >= InDocument(ms[j]) + InDocument(ms[k])
    ensures OverlayCount(ms) >= InDocument(ms[k])
    decreases |ms|
  {
    if j == 0 {
      CountCoversMask(ms[1..], k - 1);
    } else {
      CountCoversMasks(ms[1..], j - 1, k - 1);
    }
  }

  lemma {:induction false} CountCoversMask(ms: seq<Mask>, k: nat)
    requires k < |ms|
    ensures OverlayCount(ms) >= InDocument(ms[k])
    decreases |ms|
  {
    if k > 0 {
      CountCoversMask(ms[1..], k - 1);
    }
  }

  /** With at most one overlay in the document the cleanup as written does all the
      corrected one does: the two differ only once a second overlay exists. */
  lemma CleanupsAgreeOnOneOverlay(v: Viewer)
    requires OverlayCount(v.masks) <= 1
    ensures CleanupAsWritten(v) == Cleanup(v)
  {
    if v.enabled {
      var a := CleanupAsWritten(v);
      var b := Cleanup(v);
      forall k | 0 <= k < |v.masks|
        ensures a.masks[k] == b.masks[k]
      {
        if v.masks[k].attached {
          CountCoversMask(v.masks, k);
          match FirstOverlayHolder(v.masks)
          case None =>
          case Some(j) =>
            if j < k {
              CountCoversMasks(v.masks, j, k);
            }
        }
      }
      assert a.masks == b.masks;
    }
  }

  /** Cleanup keeps the feature valid. */
  lemma CleanupKeepsValid(v: Viewer)
    requires ViewerValid(v)
    ensures ViewerValid(Cleanup(v)) && ViewerValid(Setup(v))
  {
  }

  /** With the corrected cleanup, enabling, reacting to any detections, disabling
      and enabling again ends where the first enabling did, for masks that stay in
      the document: nothing accumulates across cycles. */
  lemma {:induction false} CycleLeavesNoResidue(v: Viewer, evs: seq<ViewerEvent>)
    requires Quiescent(v)
    requires forall k :: 0 <= k < |v.masks| ==> v.masks[k].attached
    requires FeatureOnly(evs)
    ensures Setup(Cleanup(Replay(Setup(v), evs))) == Setup(v)
  {
    var w := Replay(Setup(v), evs);
    ReplayKeepsContent(Setup(v), evs);
    var c := Cleanup(Replay(Setup(v), evs));
    ReplayKeepsEnabled(Setup(v), evs);
    assert c.masks == v.masks;
  }

  /** The cleanup as written gives the same cycle whenever the detections leave at
      most one overlay in the document. */
  lemma CycleAsWrittenLeavesNoResidue(v: Viewer, evs: seq<ViewerEvent>)
    requires Quiescent(v)
    requires forall k :: 0 <= k < |v.masks| ==> v.masks[k].attached
    requires FeatureOnly(evs)
    requires OverlayCount(Replay(Setup(v), evs).masks) <= 1
    ensures Setup(CleanupAsWritten(Replay(Setup(v), evs))) == Setup(v)
  {
    CleanupsAgreeOnOneOverlay(Replay(Setup(v), evs));
    CycleLeavesNoResidue(v, evs);
  }

  lemma {:induction false} ReplayKeepsEnabled(v: Viewer, evs: seq<ViewerEvent>)
    ensures Replay(v, evs).enabled == v.enabled
    decreases |evs|
  {
    if evs != [] {
      ReplayKeepsEnabled(Handle(v, evs[0]), evs[1..]);
    }
  }

  /** Without changes by the host, reacting to events only touches markers and
      overlays. */
  lemma {:induction false} ReplayKeepsContent(v: Viewer, evs: seq<ViewerEvent>)
    requires FeatureOnly(evs)
    ensures forall k :: 0 <= k < |v.masks| ==> Stripped(Replay(v, evs).masks[k]) == Stripped(v.masks[k])
    decreases |evs|
  {
    if evs != [] {
      ReplayKeepsContent(Handle(v, evs[0]), evs[1..]);
    }
  }
}
