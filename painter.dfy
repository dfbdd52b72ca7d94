/**
 * Painting a tab: the marker classes are toggled exclusively, so that a tab
 * carries at most one palette class and none of its other classes change.
 * `Painted` and `Cleared` give the class set the two painters leave behind;
 * `ApplyTabColour` and `ClearTabColour` do the work in place, one palette
 * entry at a time.
 */
module Painter {
  import opened Palette
  import opened Dom

  /** The classes `clearTabColour` leaves on an element whose classes were `c`. */
  function Cleared(c: set<string>): (r: set<string>)
    ensures r * PaletteClasses() == {}
    ensures r - PaletteClasses() == c - PaletteClasses()
    ensures r <= c
  {
    c - PaletteClasses()
  }

  /** The classes `applyTabColour(_, k)` leaves on an element whose classes were `c`. */
  function Painted(c: set<string>, k: int): (r: set<string>)
    ensures r - PaletteClasses() == c - PaletteClasses()
    ensures 0 <= k < |COLOURS| ==> r * PaletteClasses() == {COLOURS[k].cssClass}
    ensures 0 <= k < |COLOURS| ==>
      forall j :: 0 <= j < |COLOURS| ==> (COLOURS[j].cssClass in r <==> j == k)
    ensures !(0 <= k < |COLOURS|) ==> r * PaletteClasses() == {}
  {
    Cleared(c) + (if 0 <= k < |COLOURS| then {COLOURS[k].cssClass} else {})
  }

  /** Painting an index outside the palette is clearing. */
  lemma PaintOutOfRange(c: set<string>, k: int)
    requires !(0 <= k < |COLOURS|)
    ensures Painted(c, k) == Cleared(c)
  {
  }

  /** The last colour painted wins, whatever was painted before. */
  lemma PaintLastWins(c: set<string>, j: int, k: int)
    ensures Painted(Painted(c, j), k) == Painted(c, k)
  {
  }

  /** Painting the same index twice is painting it once. */
  lemma PaintIdempotent(c: set<string>, k: int)
    ensures Painted(Painted(c, k), k) == Painted(c, k)
  {
    PaintLastWins(c, k, k);
  }

  /** Clearing twice is clearing once. */
  lemma ClearIdempotent(c: set<string>)
    ensures Cleared(Cleared(c)) == Cleared(c)
  {
  }

  /** Clearing after painting leaves no marker, and forgets which one was painted. */
  lemma ClearAfterPaint(c: set<string>, k: int)
    ensures Cleared(Painted(c, k)) == Cleared(c)
    ensures Cleared(Painted(c, k)) * PaletteClasses() == {}
  {
  }

  /** Neither painter adds or removes the tab selector's class `lm-TabBar-tab`. */
  lemma PaintersKeepTabClass(c: set<string>, k: int)
    ensures "lm-TabBar-tab" in Painted(c, k) <==> "lm-TabBar-tab" in c
    ensures "lm-TabBar-tab" in Cleared(c) <==> "lm-TabBar-tab" in c
  {
  }

  /** `applyTabColour`: remove every palette class, then add the one for `k` if it is a palette index. */
  method ApplyTabColour(e: Element, k: int)
    modifies e`classes
    ensures e.classes == Painted(old(e.classes), k)
    ensures "lm-TabBar-tab" in e.classes <==> "lm-TabBar-tab" in old(e.classes)
  {
    for i := 0 to |COLOURS|
      invariant e.classes == old(e.classes) - ClassesUpTo(i)
    {
      assert ClassesUpTo(i + 1) == ClassesUpTo(i) + {COLOURS[i].cssClass};
      e.classes := e.classes - {COLOURS[i].cssClass};
    }
    if 0 <= k < |COLOURS| {
      e.classes := e.classes + {COLOURS[k].cssClass};
    }
    PaintersKeepTabClass(old(e.classes), k);
  }

  /** `clearTabColour`: remove every palette class. */
  method ClearTabColour(e: Element)
    modifies e`classes
    ensures e.classes == Cleared(old(e.classes))
    ensures "lm-TabBar-tab" in e.classes <==> "lm-TabBar-tab" in old(e.classes)
  {
    for i := 0 to |COLOURS|
      invariant e.classes == old(e.classes) - ClassesUpTo(i)
    {
      assert ClassesUpTo(i + 1) == ClassesUpTo(i) + {COLOURS[i].cssClass};
      e.classes := e.classes - {COLOURS[i].cssClass};
    }
    PaintersKeepTabClass(old(e.classes), 0);
  }
}
