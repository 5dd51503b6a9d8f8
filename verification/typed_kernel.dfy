/** The `Kernel` class of src/kernel.ts.  It keeps no output settings: the
    target and the rectangle are arguments of `run`, and both `arg` and `run`
    accept only textures that already have an image, where the index.ts
    kernel fills an image-less texture itself. */
module TypedKernel {
  import opened Results
  import opened Text
  import opened Scanner
  import opened Textures
  import opened Tables
  import opened Execution
  import opened TypedTexture
  import IndexKernel

  datatype Kernel = Kernel(tables: Tables, values: map<string, Value>)

  /** Every bound texture exists and has an image. */
  predicate Wf(k: Kernel, store: Store) {
    && ValidStore(store)
    && WellFormed(k.tables)
    && SlotsIn(k.tables.samplers, store)
    && (forall j :: 0 <= j < |k.tables.samplers| && k.tables.samplers[j].texture.Some? ==>
          store[k.tables.samplers[j].texture.value].initialized)
  }

  /** `new Kernel(gpu, glsl)`: the same tables as in index.ts, nothing bound. */
  method New(src: string, active: set<string>) returns (r: Result<Kernel>)
    ensures r.Err? <==> ExtractUniforms(Plain, src).Err? || DeclaresReserved(ExtractUniforms(Plain, src).value, active)
    ensures r.Ok? ==> r.value.values == map[]
    ensures r.Ok? ==> WellFormed(r.value.tables) && IndexKernel.Unbound(r.value.tables.samplers)
    ensures r.Ok? ==>
      var ds := ExtractUniforms(Plain, src).value;
      && r.value.tables.plain == PlainUpTo(ds, active, |ds|)
      && r.value.tables.samplers == SamplersUpTo(ds, active, |ds|)
      && r.value.tables.hasOutputDimensions == (OutputDimensionsName in active)
  {
    var tables := Construct(src, active);
    if tables.Err? {
      return Err(tables.error);
    }
    var ds := ExtractUniforms(Plain, src).value;
    IndexKernel.SamplersUnbound(ds, active, |ds|);
    r := Ok(Kernel(tables.value, map[]));
  }

  /** The value fits the type and, if it is a texture, has an image. */
  predicate Fits(store: Store, typ: string, v: Value) {
    Accepts(typ, v) && (v.Tex? ==> IsInitializedTexture(store, v))
  }

  /** `arg(name, value)`: as in index.ts, except that a texture without an
      image is a type error rather than something to fill. */
  function Arg(k: Kernel, store: Store, name: string, value: Value): (r: Result<Kernel>)
    requires Wf(k, store) && ValueIn(value, store)
    ensures r.Err? <==> GetArgType(k.tables, name).None? || !Fits(store, GetArgType(k.tables, name).value, value)
    ensures r.Err? ==> r.error == if GetArgType(k.tables, name).None? then InvalidUniformName else TypeMismatch
    ensures r.Ok? ==> Wf(r.value, store)
    ensures r.Ok? && !value.Tex? ==> r.value == k.(values := k.values[name := value])
    ensures r.Ok? && value.Tex? ==>
      && Lookup(k.tables, name).Some? && Lookup(k.tables, name).value.SamplerEntry?
      && r.value == k.(tables := BindTexture(k.tables, Lookup(k.tables, name).value.index, value.id))
  {
    match Lookup(k.tables, name)
    case None => Err(InvalidUniformName)
    case Some(e) =>
      if StartsWith(name, InternalPrefix) then Err(InvalidUniformName)
      else if !Fits(store, EntryType(k.tables, e), value) then Err(TypeMismatch)
      else if value.Tex? && e.SamplerEntry? then
        BindKeepsWellFormed(k.tables, e.index, value.id);
        Ok(k.(tables := BindTexture(k.tables, e.index, value.id)))
      else
        Ok(k.(values := k.values[name := value]))
  }

  /** Handing over a texture without an image is refused, whatever the name. */
  lemma ImagelessRejected(k: Kernel, store: Store, name: string, id: TexId)
    requires Wf(k, store) && id < |store| && IsUnInitializedTexture(store, Tex(id))
    ensures Arg(k, store, name, Tex(id)).Err?
  {
  }

  /** For values other than image-less textures the two kernels' `arg` make
      the same decision and leave the same tables and values. */
  lemma ArgAgrees(k: IndexKernel.Kernel, store: Store, name: string, value: Value)
    requires IndexKernel.Wf(k, store) && ValueIn(value, store)
    requires !IsUnInitializedTexture(store, value)
    ensures var typed := Arg(Kernel(k.tables, k.values), store, name, value);
      var index := IndexKernel.Arg(k, store, name, value);
      && typed.Ok? == index.Ok?
      && (typed.Err? ==> typed.error == index.error)
      && (typed.Ok? ==> typed.value == Kernel(index.value.0.tables, index.value.0.values) && index.value.1 == store)
  {
  }

  /** The first argument of `run`. */
  datatype RunTarget = ToCanvas | ToTexture(id: TexId) | ToOther

  /** `run(target, x?, y?, width?, height?)`: draw to the canvas or into an
      initialized texture; anything else is a type error.  A missing or zero
      size falls back to the target's own. */
  function Run(k: Kernel, store: Store, surface: Surface, target: RunTarget,
               x: Option<int>, y: Option<int>, width: Option<int>, height: Option<int>): (r: Result<Draw>)
    requires Wf(k, store) && (target.ToTexture? ==> target.id < |store|)
    ensures r.Err? <==> target.ToOther? || (target.ToTexture? && !store[target.id].initialized)
    ensures r.Err? ==> r.error == InvalidTarget
    ensures r.Ok? ==> r.value.dest == if target.ToCanvas? then Screen else Framebuffer(target.id)
    ensures r.Ok? ==> r.value.viewport.x == Or(x, 0) && r.value.viewport.y == Or(y, 0)
    ensures r.Ok? && width.Some? && width.value != 0 ==> r.value.viewport.width == width.value
    ensures r.Ok? && (width.None? || width.value == 0) ==>
      r.value.viewport.width == if target.ToCanvas? then surface.canvasWidth else store[target.id].width
    ensures r.Ok? && height.Some? && height.value != 0 ==> r.value.viewport.height == height.value
    ensures r.Ok? && (height.None? || height.value == 0) ==>
      r.value.viewport.height == if target.ToCanvas? then surface.canvasHeight else store[target.id].height
    ensures r.Ok? ==> r.value.bindings == SamplerBindings(k.tables.samplers, store)
    ensures r.Ok? ==> (r.value.outputDimensions ==
      if k.tables.hasOutputDimensions then Some(Dims(r.value.viewport.width, r.value.viewport.height)) else None)
  {
    var size :=
      match target
      case ToCanvas => Some((Or(width, surface.canvasWidth), Or(height, surface.canvasHeight), Screen))
      case ToTexture(id) =>
        if store[id].initialized then Some((Or(width, store[id].width), Or(height, store[id].height), Framebuffer(id)))
        else None
      case ToOther => None;
    if size.None? then Err(InvalidTarget)
    else
      var (w, h, dest) := size.value;
      Ok(Draw(dest, Rect(Or(x, 0), Or(y, 0), w, h),
              SamplerBindings(k.tables.samplers, store),
              if k.tables.hasOutputDimensions then Some(Dims(w, h)) else None))
  }

  function Widen(v: Option<nat>): (r: Option<int>)
    ensures r.Some? <==> v.Some?
    ensures r.Some? ==> r.value == v.value
  {
    if v.Some? then Some(v.value) else None
  }

  /** A new index.ts kernel told `output("canvas", x, y, w, h)` draws exactly
      what this kernel draws for `run("canvas", x, y, w, h)`. */
  lemma RunAgreesOnCanvas(k: IndexKernel.Kernel, store: Store, surface: Surface,
                          x: int, y: Option<int>, width: Option<nat>, height: Option<nat>)
    requires IndexKernel.Wf(k, store) && k.output == IndexKernel.Initial
    ensures var o := IndexKernel.Output(k, store, IndexKernel.Aim(IndexKernel.AimCanvas, Some(IndexKernel.Position(x, y, width, height))));
      && o.Ok?
      && IndexKernel.Run(o.value.0, o.value.1, surface).Ok?
      && Run(Kernel(k.tables, k.values), store, surface, ToCanvas, Some(x), y, Widen(width), Widen(height)).Ok?
      && IndexKernel.Run(o.value.0, o.value.1, surface).value.draw
         == Run(Kernel(k.tables, k.values), store, surface, ToCanvas, Some(x), y, Widen(width), Widen(height)).value
  {
  }
}
