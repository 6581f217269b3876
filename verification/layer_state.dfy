/** The visibility state shared by the layer filter and the layer toggle: the
    React state `Record<number, boolean>` from asset ids to visibility flags.
    A missing entry reads as `undefined`, which JavaScript treats as false. */
module LayerState {

  type Visibility = map<int, bool>

  /** `vis[id]` read as a condition: a missing entry is falsy. */
  predicate Visible(vis: Visibility, id: int) {
    id in vis && vis[id]
  }
}
