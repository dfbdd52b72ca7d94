/**
 * The part of the page the overlay reads and writes. An element is known by
 * its mutable class list, its `data-id` attribute, whether it matches the tab
 * selector `.lm-TabBar-tab`, and whether it sits inside `#jp-main-dock-panel`.
 * The page itself is a sequence of elements in document order, and the target
 * of a pointer event is the chain from the target up to the root.
 */
module Dom {
  import opened Wrappers

  class Element {
    /** The element's class list; only the painters change it. */
    var classes: set<string>
    /** `dataset.id`: `None` when the element has no `data-id` attribute. */
    const dataId: Option<string>
    /** The element matches `.lm-TabBar-tab`. */
    const isTab: bool
    /** The element is a descendant of `#jp-main-dock-panel`. */
    const underDockPanel: bool

    constructor (classes: set<string>, dataId: Option<string>, isTab: bool, underDockPanel: bool)
      ensures this.classes == classes && this.dataId == dataId
      ensures this.isTab == isTab && this.underDockPanel == underDockPanel
    {
      this.classes := classes;
      this.dataId := dataId;
      this.isTab := isTab;
      this.underDockPanel := underDockPanel;
    }
  }

  /**
   * The widget id of a tab: its `data-id`, where an empty attribute counts
   * as absent because `dataset.id || null` treats the empty string as false.
   */
  function WidgetId(e: Element): (r: Option<string>)
    ensures r.Some? <==> e.dataId.Some? && |e.dataId.value| > 0
    ensures r.Some? ==> r == e.dataId
  {
    match e.dataId
    case None => None
    case Some(id) => if id == "" then None else Some(id)
  }

  /**
   * `target.closest('.lm-TabBar-tab')` for a target whose ancestor-or-self
   * chain, nearest first, is `path`: the nearest tab on the chain, or null.
   */
  function Closest(path: seq<Element>): (r: Element?)
    ensures r == null <==> forall i :: 0 <= i < |path| ==> !path[i].isTab
    ensures r != null ==>
      exists i :: 0 <= i < |path| && path[i] == r && r.isTab &&
        forall j :: 0 <= j < i ==> !path[j].isTab
  {
    if path == [] then null
    else if path[0].isTab then path[0]
    else Closest(path[1..])
  }

  /** An element matching `#jp-main-dock-panel .lm-TabBar-tab[data-id="<widgetId>"]`. */
  predicate MatchesWidgetId(e: Element, widgetId: string)
  {
    e.underDockPanel && e.isTab && e.dataId == Some(widgetId)
  }

  /**
   * `document.querySelector` of that selector over a page whose elements in
   * document order are `doc`: the first match, or null when none matches.
   */
  function FindTabByWidgetId(doc: seq<Element>, widgetId: string): (r: Element?)
    ensures r == null <==> forall i :: 0 <= i < |doc| ==> !MatchesWidgetId(doc[i], widgetId)
    ensures r != null ==>
      exists i :: 0 <= i < |doc| && doc[i] == r && MatchesWidgetId(r, widgetId) &&
        forall j :: 0 <= j < i ==> !MatchesWidgetId(doc[j], widgetId)
  {
    if doc == [] then null
    else if MatchesWidgetId(doc[0], widgetId) then doc[0]
    else FindTabByWidgetId(doc[1..], widgetId)
  }
}
