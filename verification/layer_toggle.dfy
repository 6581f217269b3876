/** `src/utils/toggleLayerVisibility.ts`: flip the visibility of one layer in
    the map from asset ids to visibility flags.

    The set of asset ids that have a loaded tileset stands for the `tilesets`
    record. Showing or hiding the tileset itself, once it is ready, and the
    redraw request are rendering effects and are not modelled. */
module LayerToggle {
  import opened LayerState

  /** `toggleLayerVisibilityHelper`: without a tileset for the asset nothing
      happens; otherwise the entry becomes the negation of what it read as. */
  function Toggle(assetId: int, tilesets: set<int>, vis: Visibility): (r: Visibility)
    ensures assetId !in tilesets ==> r == vis
    ensures assetId in tilesets ==> assetId in r && (Visible(r, assetId) <==> !Visible(vis, assetId))
    ensures forall id :: id != assetId ==> (id in r <==> id in vis)
    ensures forall id :: id in vis && id != assetId ==> r[id] == vis[id]
  {
    if assetId !in tilesets then vis else vis[assetId := !Visible(vis, assetId)]
  }

  /** Toggling twice reads the same everywhere as not toggling ... */
  lemma ToggleTwiceVisible(assetId: int, tilesets: set<int>, vis: Visibility, id: int)
    ensures Visible(Toggle(assetId, tilesets, Toggle(assetId, tilesets, vis)), id) == Visible(vis, id)
  {
  }

  /** ... and restores the map itself when the entry was already present. A
      missing entry comes back as an explicit `false`. */
  lemma ToggleTwice(assetId: int, tilesets: set<int>, vis: Visibility)
    ensures assetId in vis || assetId !in tilesets ==>
      Toggle(assetId, tilesets, Toggle(assetId, tilesets, vis)) == vis
    ensures assetId !in vis && assetId in tilesets ==>
      Toggle(assetId, tilesets, Toggle(assetId, tilesets, vis)) == vis[assetId := false]
  {
  }

  /** Toggles of different layers commute. */
  lemma ToggleCommutes(a: int, b: int, tilesets: set<int>, vis: Visibility)
    requires a != b
    ensures Toggle(a, tilesets, Toggle(b, tilesets, vis)) == Toggle(b, tilesets, Toggle(a, tilesets, vis))
  {
  }
}
