/**
 * The part of a cue the tree nodes and the cue store touch: its id, its
 * position among its siblings, and the id of its parent cue. The rest of
 * the cue object is not part of this model.
 */
module Cues {
  import opened Wrappers

  class Cue {
    /** `cue.id`, fixed when the cue is created. */
    const id: string
    /** `cue.index`. */
    var index: int
    /** `cue.parent`: the parent cue's id, or None. */
    var parent: Option<string>

    constructor(id: string, index: int, parent: Option<string>)
      ensures this.id == id && this.index == index && this.parent == parent
    {
      this.id := id;
      this.index := index;
      this.parent := parent;
    }
  }
}
