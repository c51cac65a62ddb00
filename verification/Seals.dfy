/** Keeping a fact out of sight.  A predicate may state a part of an invariant for every k such that
    Seen(part, k), which holds of every k; a proof then takes up that part only where it mentions it. */
module Seals {

  datatype Part = MemoryPart | BlocksPart | SearchPart | FramesPart | TextPart

  predicate Seen(part: Part, k: int) {
    true
  }
}
