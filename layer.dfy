/** Technology layers and the ordered layer stack. */
module Layers {
  import opened Common
  import opened Geometry

  datatype LayerColor = LayerColor(r: byte, g: byte, b: byte)

  /** The colour a fresh layer gets: mid grey. */
  const DefaultColor := LayerColor(128, 128, 128)

  datatype FillPattern = Solid | Hatched | CrossHatched | Stipple | Dotted | Outline

  /** A layer; the opacity, a 32-bit float in the source, is an exact real here. */
  datatype Layer = Layer(
    id: LayerId,
    name: string,
    gdsLayer: u16,
    gdsDatatype: u16,
    color: LayerColor,
    fillPattern: FillPattern,
    opacity: real,
    visible: bool,
    selectable: bool,
    description: string)
  {
    /** A fresh layer: visible, selectable, solid grey at opacity 0.7, no description. */
    static function New(id: LayerId, name: string, gdsLayer: u16, gdsDatatype: u16): (l: Layer)
      ensures l.id == id && l.name == name && l.gdsLayer == gdsLayer && l.gdsDatatype == gdsDatatype
      ensures l.visible && l.selectable
      ensures l.color == DefaultColor && l.fillPattern == Solid && l.opacity == 0.7 && l.description == ""
    {
      Layer(id, name, gdsLayer, gdsDatatype, DefaultColor, Solid, 0.7, true, true, "")
    }

    /** Builder: only the colour changes. */
    function WithColor(r: byte, g: byte, b: byte): (l: Layer)
      ensures l.color == LayerColor(r, g, b)
      ensures l.(color := color) == this
    {
      this.(color := LayerColor(r, g, b))
    }

    /** Builder: only the fill pattern changes. */
    function WithPattern(pattern: FillPattern): (l: Layer)
      ensures l.fillPattern == pattern
      ensures l.(fillPattern := fillPattern) == this
    {
      this.(fillPattern := pattern)
    }

    /** Builder: only the description changes. */
    function WithDescription(desc: string): (l: Layer)
      ensures l.description == desc
      ensures l.(description := description) == this
    {
      this.(description := desc)
    }
  }

  /** Index of the first layer with the given id, as `Iterator::find` scans. */
  function FirstWithId(ls: seq<Layer>, id: LayerId): (r: Option<nat>)
    ensures r.None? <==> forall i :: 0 <= i < |ls| ==> ls[i].id != id
    ensures r.Some? ==> r.value < |ls| && ls[r.value].id == id
    ensures r.Some? ==> forall i :: 0 <= i < r.value ==> ls[i].id != id
  {
    if |ls| == 0 then None
    else if ls[0].id == id then Some(0)
    else match FirstWithId(ls[1..], id)
      case None => None
      case Some(i) => Some(i + 1)
  }

  /** Index of the first layer with the given GDS (layer, datatype) pair. */
  function FirstWithGds(ls: seq<Layer>, gdsLayer: u16, gdsDatatype: u16): (r: Option<nat>)
    ensures r.None? <==> forall i :: 0 <= i < |ls| ==> !(ls[i].gdsLayer == gdsLayer && ls[i].gdsDatatype == gdsDatatype)
    ensures r.Some? ==> r.value < |ls| && ls[r.value].gdsLayer == gdsLayer && ls[r.value].gdsDatatype == gdsDatatype
    ensures r.Some? ==> forall i :: 0 <= i < r.value ==> !(ls[i].gdsLayer == gdsLayer && ls[i].gdsDatatype == gdsDatatype)
  {
    if |ls| == 0 then None
    else if ls[0].gdsLayer == gdsLayer && ls[0].gdsDatatype == gdsDatatype then Some(0)
    else match FirstWithGds(ls[1..], gdsLayer, gdsDatatype)
      case None => None
      case Some(i) => Some(i + 1)
  }

  /** A matching index with no match before it is the first match. */
  lemma FirstWithIdAt(ls: seq<Layer>, id: LayerId, k: nat)
    requires k < |ls| && ls[k].id == id
    requires forall i :: 0 <= i < k ==> ls[i].id != id
    ensures FirstWithId(ls, id) == Some(k)
  {
  }

  /** The visible layers, in stack order. */
  function Visible(ls: seq<Layer>): (r: seq<Layer>)
    ensures |r| <= |ls|
  {
    if |ls| == 0 then []
    else Visible(ls[..|ls| - 1]) + (if ls[|ls| - 1].visible then [ls[|ls| - 1]] else [])
  }

  /** A layer is listed exactly when it is in the stack and visible. */
  lemma {:induction false} VisibleMembers(ls: seq<Layer>)
    ensures forall l :: l in Visible(ls) <==> l in ls && l.visible
  {
    if |ls| > 0 {
      VisibleMembers(ls[..|ls| - 1]);
      assert ls == ls[..|ls| - 1] + [ls[|ls| - 1]];
    }
  }

  /** Filtering visible layers distributes over concatenation, so stack order is kept. */
  lemma {:induction false} VisibleAppend(a: seq<Layer>, b: seq<Layer>)
    ensures Visible(a + b) == Visible(a) + Visible(b)
    decreases |b|
  {
    if |b| == 0 {
      assert a + b == a;
    } else {
      var b0 := b[..|b| - 1];
      assert (a + b)[..|a + b| - 1] == a + b0;
      VisibleAppend(a, b0);
    }
  }

  /** The stack after toggling the first layer with the given id (unchanged if none has it). */
  function Toggled(ls: seq<Layer>, id: LayerId): (r: seq<Layer>)
    ensures |r| == |ls|
    ensures forall i :: 0 <= i < |ls| ==> r[i].(visible := ls[i].visible) == ls[i]
    ensures forall i :: 0 <= i < |ls| ==> (r[i].visible != ls[i].visible <==> FirstWithId(ls, id) == Some(i))
  {
    match FirstWithId(ls, id)
    case None => ls
    case Some(i) => ls[i := ls[i].(visible := !ls[i].visible)]
  }

  /** Toggling the same id twice restores the stack. */
  lemma ToggleTwice(ls: seq<Layer>, id: LayerId)
    ensures Toggled(Toggled(ls, id), id) == ls
  {
    var t := Toggled(ls, id);
    match FirstWithId(ls, id)
    case None =>
    case Some(k) =>
      assert forall i :: 0 <= i < |ls| ==> t[i].id == ls[i].id;
      FirstWithIdAt(t, id, k);
  }

  /** Every layer with its visibility set to `v`. */
  function WithVisibility(ls: seq<Layer>, v: bool): (r: seq<Layer>)
  {
    seq(|ls|, i requires 0 <= i < |ls| => ls[i].(visible := v))
  }

  /** After showing every layer all are visible; after hiding every layer none is. */
  lemma {:induction false} VisibleAfterSetAll(ls: seq<Layer>)
    ensures Visible(WithVisibility(ls, true)) == WithVisibility(ls, true)
    ensures Visible(WithVisibility(ls, false)) == []
  {
    if |ls| > 0 {
      var init := ls[..|ls| - 1];
      VisibleAfterSetAll(init);
      assert WithVisibility(ls, true)[..|ls| - 1] == WithVisibility(init, true);
      assert WithVisibility(ls, false)[..|ls| - 1] == WithVisibility(init, false);
    }
  }

  /** The ordered list of layers of a technology. */
  class LayerStack {
    var layers: seq<Layer>

    constructor()
      ensures layers == []
    {
      layers := [];
    }

    method AddLayer(layer: Layer)
      modifies this
      ensures layers == old(layers) + [layer]
      ensures LayerCount() == old(LayerCount()) + 1
    {
      layers := layers + [layer];
    }

    /** The first layer with the given id, or `None`. */
    function GetLayer(id: LayerId): (r: Option<Layer>)
      reads this
      ensures r.None? <==> forall i :: 0 <= i < |layers| ==> layers[i].id != id
      ensures r.Some? ==> r.value.id == id
      ensures r.Some? ==> exists k :: (0 <= k < |layers| && layers[k] == r.value
                                      && forall i :: 0 <= i < k ==> layers[i].id != id)
    {
      match FirstWithId(layers, id)
      case None => None
      case Some(k) => Some(layers[k])
    }

    /** The first layer with the given GDS (layer, datatype) pair, or `None`. */
    function GetLayerByGds(gdsLayer: u16, gdsDatatype: u16): (r: Option<Layer>)
      reads this
      ensures r.None? <==> forall i :: 0 <= i < |layers| ==> !(layers[i].gdsLayer == gdsLayer && layers[i].gdsDatatype == gdsDatatype)
      ensures r.Some? ==> r.value.gdsLayer == gdsLayer && r.value.gdsDatatype == gdsDatatype
      ensures r.Some? ==> exists k :: (0 <= k < |layers| && layers[k] == r.value
                                      && forall i :: 0 <= i < k ==> !(layers[i].gdsLayer == gdsLayer && layers[i].gdsDatatype == gdsDatatype))
    {
      match FirstWithGds(layers, gdsLayer, gdsDatatype)
      case None => None
      case Some(k) => Some(layers[k])
    }

    function VisibleLayers(): (r: seq<Layer>)
      reads this
      ensures forall l :: l in r <==> l in layers && l.visible
      ensures r == Visible(layers)
    {
      VisibleMembers(layers);
      Visible(layers)
    }

    function LayerCount(): (n: nat)
      reads this
    {
      |layers|
    }

    /** Flips the visibility of the first layer with the given id, by a linear scan. */
    method ToggleVisibility(id: LayerId)
      modifies this
      ensures layers == Toggled(old(layers), id)
    {
      var k := 0;
      while k < |layers|
        invariant k <= |layers|
        invariant forall i :: 0 <= i < k ==> layers[i].id != id
      {
        if layers[k].id == id {
          FirstWithIdAt(layers, id, k);
          layers := layers[k := layers[k].(visible := !layers[k].visible)];
          return;
        }
        k := k + 1;
      }
    }

    method SetAllVisible(visible: bool)
      modifies this
      ensures layers == WithVisibility(old(layers), visible)
    {
      for k := 0 to |layers|
        invariant |layers| == |old(layers)|
        invariant forall i :: 0 <= i < k ==> layers[i] == old(layers)[i].(visible := visible)
        invariant forall i :: k <= i < |layers| ==> layers[i] == old(layers)[i]
      {
        layers := layers[k := layers[k].(visible := visible)];
      }
    }
  }
}
