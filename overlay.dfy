/**
 * The extension's state and its event handlers: the colour map from widget
 * id to palette index, the last right-clicked tab, the context-menu capture
 * handler, the `set-<colour>` and `clear` command bodies, and the repaint
 * pass run after the dock panel changes.
 */
module ColourfulTab {
  import opened Wrappers
  import opened Palette
  import opened Dom
  import opened Painter

  /** The commands the extension registers: one per palette entry, and `clear`. */
  datatype Command = SetColour(index: ColourIndex) | ClearColour

  /** The id a command is registered under. */
  function CommandId(c: Command): (r: string)
  {
    match c
    case SetColour(k) => "colourful-tab:set-" + COLOURS[k].id
    case ClearColour => "colourful-tab:clear"
  }

  /** The seven commands are registered under seven distinct ids. */
  lemma CommandIdInjective(c: Command, d: Command)
    ensures CommandId(c) == CommandId(d) ==> c == d
  {
    if CommandId(c) == CommandId(d) {
      match c {
        case SetColour(i) =>
          match d {
            case SetColour(j) =>
              var p := "colourful-tab:set-";
              assert COLOURS[i].id == CommandId(c)[|p|..];
              assert COLOURS[j].id == CommandId(d)[|p|..];
              PaletteDistinct(i, j);
            case ClearColour =>
          }
        case ClearColour =>
          match d {
            case SetColour(j) =>
            case ClearColour =>
          }
      }
    }
  }

  class Overlay {
    /** `tabColours`: widget id to palette index. */
    var tabColours: map<string, int>
    /** `currentTabElement`: the tab last right-clicked, or null before the first such click. */
    var currentTab: Element?

    /** Every stored id is non-empty and every stored index is a palette index. */
    ghost predicate Valid()
      reads this
    {
      forall id :: id in tabColours ==> id != "" && 0 <= tabColours[id] < |COLOURS|
    }

    /** The selected tab as a frame. */
    ghost function Selected(): (r: set<Element>)
      reads this
    {
      if currentTab == null then {} else {currentTab}
    }

    /** The widget id the commands act on: that of the selected tab, if there is one. */
    ghost function SelectedWidgetId(): (r: Option<string>)
      reads this
      ensures r.Some? ==> currentTab != null && r == WidgetId(currentTab) && r.value != ""
    {
      if currentTab == null then None else WidgetId(currentTab)
    }

    /** The colour the repaint pass gives `e`: the stored one, if `e` is the first dock tab for its id. */
    ghost function RepaintColour(doc: seq<Element>, e: Element): (r: Option<int>)
      reads this
    {
      if e.dataId.Some? && e.dataId.value in tabColours && FindTabByWidgetId(doc, e.dataId.value) == e
      then Some(tabColours[e.dataId.value])
      else None
    }

    /** The module state at load time: no colours stored, no tab selected. */
    constructor ()
      ensures Valid()
      ensures tabColours == map[] && currentTab == null
    {
      tabColours := map[];
      currentTab := null;
    }

    /**
     * The capture-phase `contextmenu` listener for an event whose target has
     * the ancestor-or-self chain `path`: select the nearest tab on it, and keep
     * the previous selection when there is none.
     */
    method OnContextMenu(path: seq<Element>)
      requires Valid()
      modifies this`currentTab
      ensures Valid() && tabColours == old(tabColours)
      ensures Closest(path) != null ==> currentTab == Closest(path)
      ensures Closest(path) == null ==> currentTab == old(currentTab)
    {
      var tab := Closest(path);
      if tab != null {
        currentTab := tab;
      }
    }

    /**
     * The `execute` body of `set-<COLOURS[k].id>`: when the selected tab has
     * a widget id, store `k` for it and paint the tab; otherwise do nothing.
     */
    method SetColour(k: ColourIndex)
      requires Valid()
      modifies this`tabColours, Selected()`classes
      ensures Valid() && currentTab == old(currentTab)
      ensures SelectedWidgetId().Some? ==>
        && tabColours == old(tabColours)[SelectedWidgetId().value := k]
        && currentTab.classes == Painted(old(currentTab.classes), k)
      // A corollary of the map update above, stated for the reader.
      ensures SelectedWidgetId().Some? ==>
        forall id :: id in old(tabColours) && id != SelectedWidgetId().value ==>
          id in tabColours && tabColours[id] == old(tabColours)[id]
      ensures SelectedWidgetId().None? ==> tabColours == old(tabColours) && unchanged(Selected())
    {
      if currentTab != null {
        var widgetId := WidgetId(currentTab);
        if widgetId.Some? {
          tabColours := tabColours[widgetId.value := k];
          ApplyTabColour(currentTab, k);
        }
      }
    }

    /**
     * The `execute` body of `clear`: when the selected tab has a widget id,
     * remove its palette class and forget its colour; otherwise do nothing.
     */
    method Clear()
      requires Valid()
      modifies this`tabColours, Selected()`classes
      ensures Valid() && currentTab == old(currentTab)
      ensures SelectedWidgetId().Some? ==>
        && tabColours == old(tabColours) - {SelectedWidgetId().value}
        && currentTab.classes == Cleared(old(currentTab.classes))
      ensures SelectedWidgetId().None? ==> tabColours == old(tabColours) && unchanged(Selected())
    {
      if currentTab != null {
        var widgetId := WidgetId(currentTab);
        if widgetId.Some? {
          ClearTabColour(currentTab);
          tabColours := tabColours - {widgetId.value};
        }
      }
    }

    /** Run the `execute` body of the command registered as `c`. */
    method Execute(c: Command)
      requires Valid()
      modifies this`tabColours, Selected()`classes
      ensures Valid() && currentTab == old(currentTab)
      ensures SelectedWidgetId().Some? ==> tabColours == match c
        case SetColour(k) => old(tabColours)[SelectedWidgetId().value := k]
        case ClearColour => old(tabColours) - {SelectedWidgetId().value}
      ensures SelectedWidgetId().Some? ==> currentTab.classes == match c
        case SetColour(k) => Painted(old(currentTab.classes), k)
        case ClearColour => Cleared(old(currentTab.classes))
      ensures SelectedWidgetId().None? ==> tabColours == old(tabColours) && unchanged(Selected())
    {
      match c
      case SetColour(k) => SetColour(k);
      case ClearColour => Clear();
    }

    /**
     * `refreshAllTabColours` over a page whose elements in document order
     * are `doc`: for every stored id whose first dock-panel tab exists, paint
     * that tab with the stored colour; ids without a tab are skipped. The map
     * is not changed, and an element that is no stored id's first tab keeps
     * its classes.
     */
    method RefreshAllTabColours(doc: seq<Element>)
      requires Valid()
      modifies doc`classes
      ensures Valid() && tabColours == old(tabColours)
      ensures forall e :: e in doc ==>
        e.classes == match RepaintColour(doc, e)
          case Some(k) => Painted(old(e.classes), k)
          case None => old(e.classes)
      ensures forall id :: id in tabColours && FindTabByWidgetId(doc, id) != null ==>
        FindTabByWidgetId(doc, id).classes * PaletteClasses() == {COLOURS[tabColours[id]].cssClass}
    {
      var pending := tabColours.Keys;
      while pending != {}
        invariant pending <= tabColours.Keys
        invariant forall e :: e in doc ==>
          e.classes == match RepaintColour(doc, e)
            case Some(k) => if e.dataId.value in pending then old(e.classes) else Painted(old(e.classes), k)
            case None => old(e.classes)
        decreases pending
      {
        var widgetId :| widgetId in pending;
        var tab := FindTabByWidgetId(doc, widgetId);
        if tab != null {
          ApplyTabColour(tab, tabColours[widgetId]);
        }
        pending := pending - {widgetId};
      }
      forall id | id in tabColours && FindTabByWidgetId(doc, id) != null
        ensures FindTabByWidgetId(doc, id).classes * PaletteClasses() == {COLOURS[tabColours[id]].cssClass}
      {
        var tab := FindTabByWidgetId(doc, id);
        assert tab in doc && RepaintColour(doc, tab) == Some(tabColours[id]);
      }
    }
  }

  /**
   * A client of the contracts above: a tab is coloured Mint from its context
   * menu, the host then replaces its node by a new one with the same
   * `data-id`, and the next repaint carries Mint over to the new node.
   * Clearing afterwards acts on the node that was right-clicked: the id
   * leaves the map, but the live node keeps its Mint marker.
   */
  method RerenderScenario()
  {
    var overlay := new Overlay();
    var tab := new Element({"lm-TabBar-tab"}, Some("id-1"), true, true);
    var tabLabel := new Element({"lm-TabBar-tabLabel"}, None, false, true);
    assert Closest([tabLabel, tab]) == tab;
    overlay.OnContextMenu([tabLabel, tab]);
    assert overlay.currentTab == tab;
    overlay.Execute(SetColour(3));
    assert overlay.tabColours == map["id-1" := 3];
    assert COLOURS[3].cssClass in tab.classes && "lm-TabBar-tab" in tab.classes;

    var page := new Element({}, None, false, false);
    overlay.OnContextMenu([page]);
    assert overlay.currentTab == tab;

    var rendered := new Element({"lm-TabBar-tab"}, Some("id-1"), true, true);
    overlay.RefreshAllTabColours([rendered]);
    assert rendered.classes * PaletteClasses() == {COLOURS[3].cssClass};

    overlay.Execute(ClearColour);
    assert overlay.tabColours == map[];
    assert tab.classes * PaletteClasses() == {};
    assert rendered.classes * PaletteClasses() == {COLOURS[3].cssClass};
  }
}
