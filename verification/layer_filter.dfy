/** `src/utils/applyFiliter.ts`: apply a discipline filter to the building
    layers, or clear it when the same filter is applied again.

    The filter's outcome is the new active filter and a freshly built
    visibility map, which the source hands to its two state setters. Showing
    the tilesets once they are ready and the redraw request are rendering
    effects and are not modelled. */
module LayerFilter {
  import opened Options
  import opened LayerState

  /** `LayerDefinition`. */
  datatype Layer = Layer(name: string, assetId: int)

  /** The layer that is never filtered. */
  const ContextName: string := "Context"

  /** The layer names each known filter type keeps. */
  const MepNames: seq<string> := ["HVAC", "Plumbing", "Electrical"]
  const ArchStructNames: seq<string> := ["Architectural", "Structural"]

  /** `filters[type]?.includes(name)`. An unknown type gives `undefined`, and
      the model reads that as false: every layer is hidden. */
  function InFilter(filterType: string, name: string): (keep: bool)
    ensures filterType == "MEP" ==> (keep <==> name in MepNames)
    ensures filterType == "ARCH_STRUCT" ==> (keep <==> name in ArchStructNames)
    ensures filterType != "MEP" && filterType != "ARCH_STRUCT" ==> !keep
  {
    if filterType == "MEP" then name in MepNames
    else if filterType == "ARCH_STRUCT" then name in ArchStructNames
    else false
  }

  /** `show` for one layer: filtered while applying, shown while clearing. */
  function Show(apply: bool, filterType: string, name: string): bool {
    if apply then InFilter(filterType, name) else true
  }

  /** A layer gets an entry when it is not the context layer and its tileset
      exists. */
  predicate Eligible(l: Layer, tilesets: set<int>) {
    l.name != ContextName && l.assetId in tilesets
  }

  /** `newVis` after the `forEach` has visited `layers` in order: later
      layers overwrite earlier ones with the same asset id. */
  function Visit(layers: seq<Layer>, apply: bool, filterType: string, tilesets: set<int>): Visibility
    decreases |layers|
  {
    if |layers| == 0 then map[]
    else
      var l := layers[|layers| - 1];
      var vis := Visit(layers[..|layers| - 1], apply, filterType, tilesets);
      if Eligible(l, tilesets) then vis[l.assetId := Show(apply, filterType, l.name)] else vis
  }

  /** The asset ids of the eligible layers, and no others, get an entry. */
  lemma {:induction false} VisitKeys(layers: seq<Layer>, apply: bool, filterType: string, tilesets: set<int>)
    ensures Visit(layers, apply, filterType, tilesets).Keys == set l | l in layers && Eligible(l, tilesets) :: l.assetId
    decreases |layers|
  {
    if |layers| > 0 {
      var init := layers[..|layers| - 1];
      VisitKeys(init, apply, filterType, tilesets);
      assert forall k :: k in layers <==> k in init || k == layers[|layers| - 1];
    }
  }

  /** The last eligible layer with asset id `id` is at index `i`. */
  predicate LastFor(layers: seq<Layer>, tilesets: set<int>, id: int, i: int) {
    && 0 <= i < |layers|
    && Eligible(layers[i], tilesets) && layers[i].assetId == id
    && forall j :: i < j < |layers| ==> !(Eligible(layers[j], tilesets) && layers[j].assetId == id)
  }

  /** Every entry is what the last eligible layer with that asset id decided. */
  lemma {:induction false} VisitLastWins(layers: seq<Layer>, apply: bool, filterType: string, tilesets: set<int>, id: int)
    requires id in Visit(layers, apply, filterType, tilesets)
    ensures exists i :: (LastFor(layers, tilesets, id, i)
      && Visit(layers, apply, filterType, tilesets)[id] == Show(apply, filterType, layers[i].name))
    decreases |layers|
  {
    var init := layers[..|layers| - 1];
    var l := layers[|layers| - 1];
    var last := |layers| - 1;
    var vis := Visit(init, apply, filterType, tilesets);
    if Eligible(l, tilesets) && l.assetId == id {
      assert LastFor(layers, tilesets, id, last);
      assert Visit(layers, apply, filterType, tilesets)[id] == Show(apply, filterType, layers[last].name);
    } else {
      assert Visit(layers, apply, filterType, tilesets)[id] == vis[id];
      VisitLastWins(init, apply, filterType, tilesets, id);
      var i :| LastFor(init, tilesets, id, i) && vis[id] == Show(apply, filterType, init[i].name);
      assert layers[i] == init[i];
      forall j | i < j < |layers|
        ensures !(Eligible(layers[j], tilesets) && layers[j].assetId == id)
      {
        if j < last {
          assert layers[j] == init[j];
        }
      }
    }
  }

  /** `applyFilterLogic`: applying the active filter again clears it and shows
      every layer; any other type becomes the active filter. */
  function ApplyFilter(filterType: string, active: Option<string>, layers: seq<Layer>, tilesets: set<int>): (r: (Option<string>, Visibility))
    ensures active == Some(filterType) ==> r.0 == None
    ensures active != Some(filterType) ==> r.0 == Some(filterType)
    ensures r.1.Keys == set l | l in layers && Eligible(l, tilesets) :: l.assetId
  {
    var apply := active != Some(filterType);
    VisitKeys(layers, apply, filterType, tilesets);
    (if apply then Some(filterType) else None, Visit(layers, apply, filterType, tilesets))
  }

  // ---------------------------------------------------------------------------
  // Properties

  /** Clearing the filter shows every layer that has an entry. */
  lemma {:induction false} ClearShowsAll(filterType: string, layers: seq<Layer>, tilesets: set<int>, id: int)
    requires id in ApplyFilter(filterType, Some(filterType), layers, tilesets).1
    ensures ApplyFilter(filterType, Some(filterType), layers, tilesets).1[id]
  {
    VisitLastWins(layers, false, filterType, tilesets, id);
  }

  /** Applying a filter shows a layer exactly when the last eligible layer
      with its asset id belongs to the filter. */
  lemma ApplyShowsFiltered(filterType: string, active: Option<string>, layers: seq<Layer>, tilesets: set<int>, id: int, i: int)
    requires active != Some(filterType)
    requires LastFor(layers, tilesets, id, i)
    ensures id in ApplyFilter(filterType, active, layers, tilesets).1
    ensures ApplyFilter(filterType, active, layers, tilesets).1[id] == InFilter(filterType, layers[i].name)
  {
    var vis := Visit(layers, true, filterType, tilesets);
    VisitKeys(layers, true, filterType, tilesets);
    assert layers[i] in layers;
    assert id in vis;
    VisitLastWins(layers, true, filterType, tilesets, id);
    var k :| LastFor(layers, tilesets, id, k) && vis[id] == Show(true, filterType, layers[k].name);
    LastUnique(layers, tilesets, id, i, k);
  }

  /** There is only one last layer for an asset id. */
  lemma LastUnique(layers: seq<Layer>, tilesets: set<int>, id: int, i: int, k: int)
    requires LastFor(layers, tilesets, id, i) && LastFor(layers, tilesets, id, k)
    ensures i == k
  {
  }

  /** An unknown filter type hides every layer that has an entry. */
  lemma UnknownHidesAll(filterType: string, active: Option<string>, layers: seq<Layer>, tilesets: set<int>, id: int)
    requires filterType != "MEP" && filterType != "ARCH_STRUCT" && active != Some(filterType)
    requires id in ApplyFilter(filterType, active, layers, tilesets).1
    ensures !ApplyFilter(filterType, active, layers, tilesets).1[id]
  {
    VisitLastWins(layers, true, filterType, tilesets, id);
  }

  /** Pressing the same filter twice from no filter ends with no filter and
      every layer shown. */
  lemma ApplyTwiceClears(filterType: string, layers: seq<Layer>, tilesets: set<int>, id: int)
    requires id in ApplyFilter(filterType, None, layers, tilesets).1
    ensures var first := ApplyFilter(filterType, None, layers, tilesets);
      var second := ApplyFilter(filterType, first.0, layers, tilesets);
      second.0 == None && second.1.Keys == first.1.Keys && second.1[id]
  {
    ClearShowsAll(filterType, layers, tilesets, id);
  }

  /** Only the context layer is exempt: a context layer whose asset id no
      other eligible layer shares gets no entry. */
  lemma ContextNeverListed(filterType: string, active: Option<string>, layers: seq<Layer>, tilesets: set<int>, i: int)
    requires 0 <= i < |layers| && layers[i].name == ContextName
    requires forall j :: 0 <= j < |layers| && Eligible(layers[j], tilesets) ==> layers[j].assetId != layers[i].assetId
    ensures layers[i].assetId !in ApplyFilter(filterType, active, layers, tilesets).1
  {
  }
}
