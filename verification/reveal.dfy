/**
 The `Reveal` wrapper: until its block has been seen it is transparent and
 pushed 40 px away from its resting place; once its visibility flag is set it
 is opaque and untranslated (the browser animates between the two).
 */
module Reveal {
  import Visibility

  /** How far a hidden block is pushed, in pixels. */
  const Distance: int := 40

  /** The CSS transforms `getTransform` produces: `translate(x, y)`,
      `translateX(x)` and `translateY(y)`, all in pixels. */
  datatype Transform = Translate(x: int, y: int) | TranslateX(x: int) | TranslateY(y: int)

  /** The displacement a transform applies, as (horizontal, vertical); down and right are positive. */
  function Offset(t: Transform): (int, int) {
    match t
    case Translate(x, y) => (x, y)
    case TranslateX(x) => (x, 0)
    case TranslateY(y) => (0, y)
  }

  /** `getTransform`: TypeScript admits only "up", "left" and "right", but the
      switch has a default branch for any other string. */
  function GetTransform(isVisible: bool, direction: string): (r: Transform)
    ensures Offset(r) == (0, 0) <==> isVisible
    ensures !isVisible ==> (r.TranslateX? <==> direction == "left" || direction == "right")
  {
    if isVisible then Translate(0, 0)
    else if direction == "up" then TranslateY(Distance)
    else if direction == "left" then TranslateX(-Distance)
    else if direction == "right" then TranslateX(Distance)
    else TranslateY(Distance)
  }

  /** The two style properties the wrapper derives from its flag. */
  datatype Style = Style(opacity: int, transform: Transform)

  function StyleOf(isVisible: bool, direction: string): (r: Style)
    ensures AtRest(r) <==> isVisible
    ensures r.opacity == 0 <==> !isVisible
  {
    Style(if isVisible then 1 else 0, GetTransform(isVisible, direction))
  }

  /** The resting style: fully opaque and not displaced. */
  predicate AtRest(s: Style) {
    s.opacity == 1 && Offset(s.transform) == (0, 0)
  }

  /** Only a hidden block depends on its direction: every visible block has the same
      style, and every hidden block the same opacity. */
  lemma DirectionOnlyShiftsHidden(d1: string, d2: string)
    ensures StyleOf(true, d1) == StyleOf(true, d2)
    ensures StyleOf(false, d1).opacity == StyleOf(false, d2).opacity
  {
  }

  /** Before it is seen the block is transparent and displaced by exactly 40 px along
      one axis: sideways, to the left, for "left"; sideways, to the right, for
      "right"; downwards for "up" and for every other direction. */
  lemma HiddenStyle(direction: string)
    ensures var s := StyleOf(false, direction);
            var (dx, dy) := Offset(s.transform);
            && s.opacity == 0
            && (dx == 0 || dy == 0) && dx * dx + dy * dy == Distance * Distance
            && (dy == 0 <==> direction == "left" || direction == "right")
            && (dx < 0 <==> direction == "left")
            && (dy == 0 || dy == Distance)
  {
  }

  /** Whatever entries the observer delivers, the block is at rest exactly when one of
      them intersected, and once at rest it stays at rest. */
  lemma RestsOnceSeen(direction: string, entries: seq<bool>, i: nat, j: nat)
    requires i <= j <= |entries|
    ensures AtRest(StyleOf(Visibility.AfterEntries(false, entries), direction))
            <==> exists k :: 0 <= k < |entries| && entries[k]
    ensures AtRest(StyleOf(Visibility.AfterEntries(false, entries[..i]), direction))
            ==> AtRest(StyleOf(Visibility.AfterEntries(false, entries[..j]), direction))
  {
    Visibility.AfterEntriesIff(false, entries);
    if Visibility.AfterEntries(false, entries[..i]) {
      Visibility.NeverReverts(false, entries, i, j);
    }
  }
}
