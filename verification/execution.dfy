/** What a kernel run hands to the graphics API, shared by the three
    execution variants: the values `arg` accepts, the destination and
    rectangle of the draw, and which texture sits on which texture unit.
    The draw itself (the fragment shader's per-pixel results) is not
    modelled; a `Draw` records everything the library decides about it. */
module Execution {
  import opened Results
  import opened Text
  import opened Textures
  import opened Tables

  /** An argument value: a number, an array of numbers, or a texture object. */
  datatype Value = Number(x: real) | Array(elems: seq<real>) | Tex(id: TexId)

  /** The value refers to a texture of the store, if it is a texture at all. */
  predicate ValueIn(v: Value, store: Store) {
    v.Tex? ==> v.id < |store|
  }

  /** `float`, `vec2`, `vec3`, `vec4` or `sampler2D`: the types the libraries name. */
  predicate IsGlslType(typ: string) {
    typ == "float" || typ == "vec2" || typ == "vec3" || typ == "vec4" || typ == Sampler2D
  }

  /** The type test of `arg` in index.ts and src/kernel.ts: a number fits
      `float`, an array of length N fits `vecN`, a texture fits `sampler2D`. */
  predicate Accepts(typ: string, v: Value) {
    match v
    case Number(_) => typ == "float"
    case Array(elems) => typ == VecName(|elems|)
    case Tex(_) => typ == Sampler2D
  }

  /** For the types a shader can declare, an array is accepted exactly by the
      vector type of its length, so arrays of length 0, 1 or more than 4 are
      always rejected. */
  lemma ArrayAcceptance(typ: string, elems: seq<real>)
    requires IsGlslType(typ)
    ensures Accepts(typ, Array(elems)) <==> 2 <= |elems| <= 4 && typ == VecName(|elems|)
  {
    VecNameKnown(|elems|);
    var name := VecName(|elems|);
    assert name[0] == 'v';
    assert "float"[0] == 'f' && Sampler2D[0] == 's';
  }

  datatype Dest = Screen | Framebuffer(texture: TexId)

  /** The numbers given to `gl.viewport`. */
  datatype Rect = Rect(x: int, y: int, width: int, height: int)

  /** The two numbers given to a `*_dimensions` uniform. */
  datatype Dims = Dims(width: int, height: int)

  /** Texture unit `unit` holds `texture` during the draw; `dimensions` is
      the size uploaded to the sampler's dimensions uniform, if it has one. */
  datatype Binding = Binding(unit: nat, texture: TexId, dimensions: Option<Dims>)

  datatype Draw = Draw(dest: Dest, viewport: Rect, bindings: seq<Binding>, outputDimensions: Option<Dims>)

  /** The sizes the host reports: the canvas element and its drawing buffer. */
  datatype Surface = Surface(canvasWidth: nat, canvasHeight: nat, bufferWidth: nat, bufferHeight: nat)

  /** JavaScript's `v || fallback` for an optional number: a missing value or 0 falls back. */
  function Or(v: Option<int>, fallback: int): int {
    if v.Some? && v.value != 0 then v.value else fallback
  }

  /** Every bound texture of the slots is a texture of the store. */
  predicate SlotsIn(samplers: seq<SamplerSlot>, store: Store) {
    forall j :: 0 <= j < |samplers| && samplers[j].texture.Some? ==> samplers[j].texture.value < |store|
  }

  /** The binding a bound sampler slot contributes to the draw. */
  function BindingOf(s: SamplerSlot, store: Store): Binding
    requires s.texture.Some? && s.texture.value < |store|
  {
    var t := store[s.texture.value];
    Binding(s.unit, s.texture.value, if s.hasDimensions then Some(Dims(t.width, t.height)) else None)
  }

  /** The loop over the sampler slots before the draw: bind each slot that
      has a texture, in table order, and skip the others without error. */
  function SamplerBindings(samplers: seq<SamplerSlot>, store: Store): (bs: seq<Binding>)
    requires SlotsIn(samplers, store)
    ensures |bs| <= |samplers|
    ensures forall j :: 0 <= j < |samplers| && samplers[j].texture.Some? ==> BindingOf(samplers[j], store) in bs
    ensures forall b :: b in bs ==> exists j :: 0 <= j < |samplers| && samplers[j].texture.Some? && b == BindingOf(samplers[j], store)
  {
    if |samplers| == 0 then []
    else
      var rest := SamplerBindings(samplers[1..], store);
      assert forall j :: 1 <= j < |samplers| ==> samplers[j] == samplers[1..][j - 1];
      if samplers[0].texture.Some? then [BindingOf(samplers[0], store)] + rest else rest
  }

  /** When every slot is bound, the draw uses one unit per slot, in table order. */
  lemma {:induction false} AllBound(samplers: seq<SamplerSlot>, store: Store)
    requires SlotsIn(samplers, store)
    requires forall j :: 0 <= j < |samplers| ==> samplers[j].texture.Some?
    ensures |SamplerBindings(samplers, store)| == |samplers|
    ensures forall j :: 0 <= j < |samplers| ==> SamplerBindings(samplers, store)[j] == BindingOf(samplers[j], store)
  {
    if |samplers| > 0 {
      AllBound(samplers[1..], store);
    }
  }
}
