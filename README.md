# Colourful tabs: a Dafny model

This project models the JupyterLab extension `jupyterlab_colourful_tab_extension`, which lets a user give a tab in the main dock panel one of six pastel colours from the tab's context menu. All of the extension's behaviour lives in `src/index.ts`:

- a fixed palette `COLOURS` of six entries, each with a display name, a command id and a CSS marker class;
- two painters. `applyTabColour` removes every marker class and then adds the one for the given index. `clearTabColour` only removes;
- a module-level `Map` `tabColours` from widget id (the tab's `data-id`) to palette index;
- `currentTabElement`, the last right-clicked tab. A capture-phase `contextmenu` listener sets it;
- one `colourful-tab:set-<id>` command per palette entry and one `colourful-tab:clear` command. These update the map and paint the selected tab;
- `refreshAllTabColours`. A `MutationObserver` on the dock panel runs it, and it repaints every stored id onto the first dock-panel tab that currently carries that `data-id`.

The model is imperative, like the source:

- `Dom.Element` is a class. Its `classes` field is mutable, and its `data-id`, tab-ness and dock-panel placement are fixed.
- `ColourfulTab.Overlay` is a class holding `tabColours` and `currentTab` (an `Element?`, null like the source's `null`).
- The painters are methods that loop over the palette.
- The repaint pass loops over the map's keys.
- Each method is proved against the pure functions `Painter.Painted` and `Painter.Cleared` or against the page lookups `Dom.Closest` and `Dom.FindTabByWidgetId`. The properties of those functions are proved as their own `ensures` and as lemmas.

The page is given to the methods, not owned by the model. A page is a sequence of elements in document order. An event target is its ancestor-or-self chain, nearest first. The overlay only observes elements and never controls their lifetime, so the selected tab need not still be on the page.

What is proved:

- For a palette index `k`, a painted element carries exactly one marker class, `COLOURS[k].cssClass`. This uses the fact that the six class names are distinct.
- For any other index, painting leaves no marker class: it acts as clearing.
- Non-marker classes are never touched. Both painters are idempotent, and clearing after painting leaves no marker.
- `set-<colour>` and `clear` act only when the selected tab has a non-empty `data-id`. Otherwise neither the map nor any element changes.
- The context-menu handler keeps the previous selection when the click is not inside a tab.
- The repaint pass leaves the map as it was. Every stored id whose first dock-panel tab exists ends with exactly its stored colour on that tab, and every other element keeps its classes.
- Every stored index lies in `[0, 6)` and every stored id is non-empty (`Overlay.Valid`). Every state change preserves this.
- The seven command ids are distinct, so the seven registrations do not collide.

The colour map is keyed by the tab's `data-id` and is held in memory only. The extension installs a `MutationObserver` on `#jp-main-dock-panel` once the shell is restored. It watches child-list changes in that subtree and calls `refreshAllTabColours` on every batch, with no debounce.

## Model

| member | source | states |
|---|---|---|
| `Palette.PaletteClasses` | src/index.ts:10-17 | no marker class is the tab selector's class `lm-TabBar-tab`, so painting never changes whether an element is a tab |
| `Palette.PaletteDistinct` | src/index.ts:10-17 | no two palette entries share a marker class or a command id |
| `Dom.WidgetId` | src/index.ts:54-56 | a tab has a widget id exactly when its `data-id` is present and non-empty, and then the id is that attribute |
| `Dom.Closest` | src/index.ts:98-100 | `closest('.lm-TabBar-tab')` yields null exactly when no element on the ancestor-or-self chain is a tab, and otherwise yields the nearest tab on the chain |
| `Dom.FindTabByWidgetId` | src/index.ts:61-65 | the lookup yields null exactly when no element under the dock panel is a tab with that `data-id`, and otherwise yields the first such element in document order |
| `Painter.Cleared` | src/index.ts:46-48 | clearing leaves no marker class, keeps every other class, and adds nothing |
| `Painter.Painted` | src/index.ts:33-41 | painting keeps every non-marker class. For a palette index `k` exactly one marker is left, `COLOURS[k].cssClass`, and marker `j` is present iff `j == k`. For any other index no marker is left |
| `Painter.PaintOutOfRange` | src/index.ts:35-40 | painting an index outside `[0, 6)` leaves the same classes as clearing |
| `Painter.PaintLastWins` | src/index.ts:33-41 | painting `j` and then `k` leaves the same classes as painting `k` alone |
| `Painter.PaintIdempotent` | src/index.ts:33-41 | painting the same index twice leaves the same classes as painting it once |
| `Painter.ClearIdempotent` | src/index.ts:46-48 | clearing twice leaves the same classes as clearing once |
| `Painter.PaintersKeepTabClass` | src/index.ts:33-48 | painting and clearing keep `lm-TabBar-tab` exactly when the element had it |
| `Painter.ClearAfterPaint` | src/index.ts:33-48 | clearing after painting forgets the painted colour and leaves no marker |
| `Painter.ApplyTabColour` | src/index.ts:33-41 | the loop over the palette followed by the conditional add leaves `Painted(old classes, k)` on the element, keeps `lm-TabBar-tab` exactly when it was present, and changes no other field or object |
| `Painter.ClearTabColour` | src/index.ts:46-48 | the loop over the palette leaves `Cleared(old classes)` on the element, keeps `lm-TabBar-tab` exactly when it was present, and changes no other field or object |
| `ColourfulTab.CommandIdInjective` | src/index.ts:112-134 | `CommandId` gives the ids registered at src/index.ts:113 and :134. Distinct commands have distinct ids, so no two registrations collide |
| `ColourfulTab.Overlay.constructor` | src/index.ts:23-28 | the state starts with an empty colour map and no selection |
| `ColourfulTab.Overlay.OnContextMenu` | src/index.ts:97-106 | the selection becomes the nearest tab on the target's chain, and is kept when there is none. The colour map is unchanged |
| `ColourfulTab.Overlay.SetColour` | src/index.ts:116-129 | with a selected tab whose widget id is non-empty, the map stores `k` for that id and leaves every other entry unchanged, and the tab ends as `Painted(old, k)`. Otherwise neither the map nor the tab changes. The invariant is kept |
| `ColourfulTab.Overlay.Clear` | src/index.ts:137-146 | with a selected tab whose widget id is non-empty, that id leaves the map and the tab ends as `Cleared(old)`. Otherwise neither the map nor the tab changes. The invariant is kept |
| `ColourfulTab.Overlay.Execute` | src/index.ts:112-147 | running a registered command has the effect of that command's `execute` body, as above |
| `ColourfulTab.Overlay.RefreshAllTabColours` | src/index.ts:70-77 | the map is unchanged. Each element that is the first dock-panel tab for a stored id ends as `Painted(old, stored index)`, every other element keeps its classes, and ids with no tab are skipped. Each such tab then carries exactly the marker of its stored colour |

`ColourfulTab.RerenderScenario` uses these contracts. A tab is coloured Mint through its context menu, and a later right-click outside any tab keeps it selected. The host then replaces the tab's node, and the next repaint carries Mint over to the new node. A later `clear` acts on the detached node that was right-clicked. It removes the id from the map, but the live node keeps its Mint marker, as in the source.

## Left out

- Plugin wiring. The plugin object, `activate`, the `addCommand` labels and captions, and the `console.log` calls are host glue with no behaviour to verify. Only the command ids are modelled.
- Event plumbing. `document.addEventListener`, `app.restored.then` and the `MutationObserver` are asynchronous and belong to the host. The handler bodies are methods called on demand. When the observer fires, and whether the dock panel exists when it is installed, are not modelled.
- The DOM itself. CSS selectors, `closest` and `querySelector` become lookups over explicit sequences of elements.
- `Dom.FindTabByWidgetId` treats the selector `[data-id="<id>"]` as an exact match on the attribute, and ids that the selector cannot carry verbatim are assumed not to occur. For an id containing `"` or a newline, `querySelector` throws. That throw ends the `tabColours.forEach` in `refreshAllTabColours` (src/index.ts:71-76), so later ids are not repainted. For an id containing `\`, the string escape can make the query match a different `data-id`. The model has neither behaviour.
- Class-list order. A `DOMTokenList` keeps insertion order, but the model keeps a set. Order has no effect on which marker is present.
- Fixed attributes. An element's `data-id`, whether it matches `.lm-TabBar-tab`, and where it sits in the tree are fixed for the element's lifetime. A host that rewrites these on a node is modelled as one that replaces the node. `Dom.Element.isTab` stands for the presence of the class `lm-TabBar-tab`, and the model does not link it to `classes`. Both painter methods keep that class exactly when it was present, using `Painter.PaintersKeepTabClass`, so painting an element whose `classes` agree with `isTab` keeps them in agreement.
- `ColourfulTab.Overlay.RefreshAllTabColours` visits stored ids in an arbitrary order, not the `Map`'s insertion order. The result does not depend on the order, because distinct ids are found on distinct elements.
- `Painter.ApplyTabColour` takes an integer index. A JavaScript `number` that is not an integer is never passed by the extension, and it is not modelled.
- Stylesheet colours and theme switching live in CSS outside the modelled file.
- Stable keys, `localStorage` persistence, eviction of stale keys, toolbar colouring and debouncing are absent from `src/index.ts`. They are not modelled.
- The Jest test file checks only the lengths of arrays it defines itself. The Python package files are packaging and an import check. None of them exercises `src/index.ts`.
