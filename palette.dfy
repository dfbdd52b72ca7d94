/**
 * The fixed palette of six pastel colours. Each entry carries the name shown
 * in the menu, the id used in its command name, and the CSS marker class that
 * the painter toggles on a tab element.
 */
module Palette {
  datatype Colour = Colour(name: string, id: string, cssClass: string)

  const COLOURS: seq<Colour> := [
    Colour("Rose", "rose", "jp-colourful-tab-rose"),
    Colour("Peach", "peach", "jp-colourful-tab-peach"),
    Colour("Lemon", "lemon", "jp-colourful-tab-lemon"),
    Colour("Mint", "mint", "jp-colourful-tab-mint"),
    Colour("Sky", "sky", "jp-colourful-tab-sky"),
    Colour("Lavender", "lavender", "jp-colourful-tab-lavender")
  ]

  /** A position in the palette: the indices the commands are registered for. */
  type ColourIndex = k: int | 0 <= k < |COLOURS|

  /** The marker classes of the first n palette entries. */
  function ClassesUpTo(n: nat): (r: set<string>)
    requires n <= |COLOURS|
  {
    set j | 0 <= j < n :: COLOURS[j].cssClass
  }

  /** All six marker classes. */
  function PaletteClasses(): (p: set<string>)
    ensures forall k :: 0 <= k < |COLOURS| ==> COLOURS[k].cssClass in p
    ensures forall s :: s in p ==> exists k :: 0 <= k < |COLOURS| && COLOURS[k].cssClass == s
    ensures "lm-TabBar-tab" !in p
  {
    ClassesUpTo(|COLOURS|)
  }

  /** No two palette entries share a marker class or a command id. */
  lemma PaletteDistinct(i: ColourIndex, j: ColourIndex)
    ensures COLOURS[i].cssClass == COLOURS[j].cssClass ==> i == j
    ensures COLOURS[i].id == COLOURS[j].id ==> i == j
  {
  }
}
