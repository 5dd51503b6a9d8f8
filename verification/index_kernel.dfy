/** The `Kernel` class of index.ts: a compiled fragment shader with its
    uniform tables, the values given to `arg`, and the output settings that
    `output` records and `run` reads.  The kernel starts in "texture" mode,
    where every `run` draws into a texture it creates. */
module IndexKernel {
  import opened Results
  import opened Text
  import opened Textures
  import opened Scanner
  import opened Tables
  import opened Execution
  import IndexTexture

  /** `_output.target`: the string "texture", the string "canvas", or a texture. */
  datatype Target = TextureMode | Canvas | Into(id: TexId)

  /** `_output`: the target and the four numbers, `null` until set. */
  datatype OutputState = OutputState(target: Target, x: Option<int>, y: Option<int>, width: Option<nat>, height: Option<nat>)

  /** `values` records what `arg` handed to `gl.uniform*` for each plain uniform. */
  datatype Kernel = Kernel(tables: Tables, output: OutputState, values: map<string, Value>)

  const Initial: OutputState := OutputState(TextureMode, None, None, None, None)

  /** What holds of a kernel and the textures it refers to between calls. */
  predicate Wf(k: Kernel, store: Store) {
    && ValidStore(store)
    && WellFormed(k.tables)
    && SlotsIn(k.tables.samplers, store)
    && (forall j :: 0 <= j < |k.tables.samplers| && k.tables.samplers[j].texture.Some? ==>
          store[k.tables.samplers[j].texture.value].initialized)
    && (k.output.target.Into? ==> k.output.target.id < |store| && store[k.output.target.id].initialized)
  }

  /** `new Kernel(gpu, glsl)`: build the tables, no sampler bound, "texture" mode, nothing set. */
  method New(src: string, active: set<string>) returns (r: Result<Kernel>)
    ensures r.Err? <==> ExtractUniforms(Plain, src).Err? || DeclaresReserved(ExtractUniforms(Plain, src).value, active)
    ensures r.Ok? ==> r.value.output == Initial && r.value.values == map[]
    ensures r.Ok? ==> WellFormed(r.value.tables) && Unbound(r.value.tables.samplers)
    ensures r.Ok? ==>
      var ds := ExtractUniforms(Plain, src).value;
      && r.value.tables.plain == PlainUpTo(ds, active, |ds|)
      && r.value.tables.samplers == SamplersUpTo(ds, active, |ds|)
      && r.value.tables.hasOutputDimensions == (OutputDimensionsName in active)
  {
    var tables := Construct(src, active);
    if tables.Err? {
      return Err(tables.error);
    }
    var ds := ExtractUniforms(Plain, src).value;
    SamplersUnbound(ds, active, |ds|);
    r := Ok(Kernel(tables.value, Initial, map[]));
  }

  /** No sampler slot has a texture yet. */
  predicate Unbound(samplers: seq<SamplerSlot>) {
    forall j :: 0 <= j < |samplers| ==> samplers[j].texture.None?
  }

  lemma SamplersUnbound(ds: seq<Decl>, active: set<string>, n: nat)
    requires n <= |ds|
    ensures Unbound(SamplersUpTo(ds, active, n))
  {
  }

  /** A kernel fresh from the constructor fits any set of textures. */
  lemma NewFitsAnyStore(k: Kernel, store: Store)
    requires WellFormed(k.tables) && Unbound(k.tables.samplers) && k.output == Initial
    requires ValidStore(store)
    ensures Wf(k, store)
  {
  }

  /** `if (!t.isInitialized) t.fill()`: give an image-less texture a zero image. */
  function Prepare(store: Store, id: TexId): (r: Store)
    requires ValidStore(store) && id < |store|
    ensures ValidStore(r) && Extends(store, r) && |r| == |store|
    ensures r[id].initialized
    ensures r[id].storage == if store[id].initialized then store[id].storage else Zeros(ByteSize(store[id].width, store[id].height))
    ensures forall i :: 0 <= i < |store| && (i != id || store[id].initialized) ==> r[i] == store[i]
  {
    if store[id].initialized then store else store[id := IndexTexture.Fill(store[id], None).value]
  }

  /** `getArgType(name)`. */
  function ArgType(k: Kernel, name: string): Option<string> {
    GetArgType(k.tables, name)
  }

  /** `arg(name, value)`: reject an unknown or internal name, then a value
      that does not fit the declared type; give a sampler a texture (filling
      it first if it has no image), any other uniform its value. */
  function Arg(k: Kernel, store: Store, name: string, value: Value): (r: Result<(Kernel, Store)>)
    requires Wf(k, store) && ValueIn(value, store)
    ensures r.Err? <==> ArgType(k, name).None? || !Accepts(ArgType(k, name).value, value)
    ensures r.Err? ==> r.error == if ArgType(k, name).None? then InvalidUniformName else TypeMismatch
    ensures r.Ok? ==> Wf(r.value.0, r.value.1) && Extends(store, r.value.1) && |r.value.1| == |store|
    ensures r.Ok? ==> r.value.0.output == k.output
    ensures r.Ok? && !value.Tex? ==>
      && r.value.1 == store && r.value.0.tables == k.tables
      && r.value.0.values == k.values[name := value]
    ensures r.Ok? && value.Tex? ==>
      && Lookup(k.tables, name).Some? && Lookup(k.tables, name).value.SamplerEntry?
      && r.value.0.tables == BindTexture(k.tables, Lookup(k.tables, name).value.index, value.id)
      && r.value.1 == Prepare(store, value.id)
      && r.value.0.values == k.values
  {
    match Lookup(k.tables, name)
    case None => Err(InvalidUniformName)
    case Some(e) =>
      if StartsWith(name, InternalPrefix) then Err(InvalidUniformName)
      else if !Accepts(EntryType(k.tables, e), value) then Err(TypeMismatch)
      else if value.Tex? && e.SamplerEntry? then
        var store' := Prepare(store, value.id);
        BindKeepsWellFormed(k.tables, e.index, value.id);
        Ok((k.(tables := BindTexture(k.tables, e.index, value.id)), store'))
      else
        Ok((k.(values := k.values[name := value]), store))
  }

  /** The numeric arguments of `output`: `x`, then optionally `y`, `width`, `height`. */
  datatype Position = Position(x: int, y: Option<int>, width: Option<nat>, height: Option<nat>)

  /** The first argument of `output` when it is not a number. */
  datatype Aim = AimCanvas | AimTexture(id: TexId) | AimOther

  /** The two call shapes of `output`: numbers only, or a target then
      optional numbers. */
  datatype OutputCall = Place(position: Position) | Aim(aim: Aim, placed: Option<Position>)

  /** `args[k] || this._output.width`: a missing or zero size keeps the old one. */
  function Keep(v: Option<nat>, previous: Option<nat>): (r: Option<nat>)
    ensures r == previous || (r == v && v.Some? && v.value != 0)
    ensures v.Some? && v.value != 0 ==> r == v
  {
    if v.Some? && v.value != 0 then v else previous
  }

  /** The numbers of an `output` call recorded in the output settings. */
  function Positioned(o: OutputState, pos: Position): (r: OutputState)
    ensures r.target == o.target && r.x == Some(pos.x) && r.y == pos.y
    ensures r.width == Keep(pos.width, o.width) && r.height == Keep(pos.height, o.height)
  {
    o.(x := Some(pos.x), y := pos.y, width := Keep(pos.width, o.width), height := Keep(pos.height, o.height))
  }

  /** `output(...)`. */
  function Output(k: Kernel, store: Store, call: OutputCall): (r: Result<(Kernel, Store)>)
    requires Wf(k, store) && (call.Aim? && call.aim.AimTexture? ==> call.aim.id < |store|)
    ensures r.Err? <==> call.Aim? && call.aim.AimOther?
    ensures r.Err? ==> r.error == InvalidArguments
    ensures r.Ok? ==> Wf(r.value.0, r.value.1) && Extends(store, r.value.1)
    ensures r.Ok? ==> r.value.0.tables == k.tables && r.value.0.values == k.values
    ensures r.Ok? ==> (r.value.0.output.target ==
      match call
      case Place(_) => k.output.target
      case Aim(aim, _) => if aim.AimCanvas? then Canvas else Into(aim.id))
    ensures r.Ok? && (call.Place? || call.placed.Some?) ==>
      var pos := if call.Place? then call.position else call.placed.value;
      && r.value.0.output.x == Some(pos.x) && r.value.0.output.y == pos.y
      && r.value.0.output.width == Keep(pos.width, k.output.width)
      && r.value.0.output.height == Keep(pos.height, k.output.height)
    ensures r.Ok? && call.Aim? && call.placed.None? ==>
      && r.value.0.output.x == k.output.x && r.value.0.output.y == k.output.y
      && r.value.0.output.width == k.output.width && r.value.0.output.height == k.output.height
    ensures r.Ok? && !(call.Aim? && call.aim.AimTexture?) ==> r.value.1 == store
    ensures r.Ok? && call.Aim? && call.aim.AimTexture? ==> r.value.1 == Prepare(store, call.aim.id)
  {
    match call
    case Place(pos) => Ok((k.(output := Positioned(k.output, pos)), store))
    case Aim(aim, pos) =>
      if aim.AimOther? then Err(InvalidArguments)
      else
        var target := if aim.AimCanvas? then Canvas else Into(aim.id);
        var store' := if aim.AimTexture? then Prepare(store, aim.id) else store;
        var o := k.output.(target := target);
        var o' := if pos.Some? then Positioned(o, pos.value) else o;
        Ok((k.(output := o'), store'))
  }

  /** The result of `run`: the textures afterwards, the draw, and the
      texture returned to the caller, if any. */
  datatype RunResult = RunResult(store: Store, draw: Draw, returned: Option<TexId>)

  /** The width and height `run` draws with, when they are known. */
  function OutputSize(k: Kernel, store: Store, surface: Surface): (r: Option<(int, int)>)
    requires Wf(k, store)
    ensures r.None? <==> k.output.target.TextureMode? && (k.output.width.None? || k.output.height.None?)
    ensures r.Some? && k.output.width.Some? && k.output.width.value != 0 ==> r.value.0 == k.output.width.value
    ensures r.Some? && k.output.height.Some? && k.output.height.value != 0 ==> r.value.1 == k.output.height.value
    // a missing or zero size falls back to the canvas ...
    ensures k.output.target.Canvas? && (k.output.width.None? || k.output.width.value == 0) ==>
      r.value.0 == surface.canvasWidth
    ensures k.output.target.Canvas? && (k.output.height.None? || k.output.height.value == 0) ==>
      r.value.1 == surface.canvasHeight
    // ... or to the target texture
    ensures k.output.target.Into? && (k.output.width.None? || k.output.width.value == 0) ==>
      r.value.0 == store[k.output.target.id].width
    ensures k.output.target.Into? && (k.output.height.None? || k.output.height.value == 0) ==>
      r.value.1 == store[k.output.target.id].height
  {
    var o := k.output;
    match o.target
    case Canvas => Some((Or(o.width, surface.canvasWidth), Or(o.height, surface.canvasHeight)))
    case Into(id) => Some((Or(o.width, store[id].width), Or(o.height, store[id].height)))
    case TextureMode =>
      if o.width.None? || o.height.None? then None else Some((o.width.value, o.height.value))
  }

  /** `run()`: pick the destination and size, create the output texture in
      "texture" mode, bind every sampler that has a texture, and draw over
      the viewport.  In "texture" mode nothing binds a framebuffer
      explicitly: the first write of the new texture binds its own. */
  function Run(k: Kernel, store: Store, surface: Surface): (r: Result<RunResult>)
    requires Wf(k, store)
    ensures r.Err? <==> k.output.target.TextureMode? && (k.output.width.None? || k.output.height.None?)
    ensures r.Err? ==> r.error == SizeNotSet
    ensures r.Ok? ==> Wf(k, r.value.store) && Extends(store, r.value.store)
    ensures r.Ok? ==> (r.value.draw.viewport ==
      Rect(Or(k.output.x, 0), Or(k.output.y, 0), OutputSize(k, store, surface).value.0, OutputSize(k, store, surface).value.1))
    ensures r.Ok? ==> (r.value.draw.outputDimensions ==
      if k.tables.hasOutputDimensions then Some(Dims(r.value.draw.viewport.width, r.value.draw.viewport.height)) else None)
    ensures r.Ok? ==> r.value.draw.bindings == SamplerBindings(k.tables.samplers, store)
    ensures r.Ok? && k.output.target.Canvas? ==> r.value.draw.dest == Screen && r.value == RunResult(store, r.value.draw, None)
    ensures r.Ok? && k.output.target.Into? ==>
      r.value.draw.dest == Framebuffer(k.output.target.id) && r.value == RunResult(store, r.value.draw, None)
    ensures r.Ok? && k.output.target.TextureMode? ==>
      && r.value.returned == Some(|store|) && r.value.draw.dest == Framebuffer(|store|)
      && |r.value.store| == |store| + 1 && r.value.store[..|store|] == store
      && var t := r.value.store[|store|];
         t.initialized && t.width == k.output.width.value && t.height == k.output.height.value
         && t.storage == Zeros(ByteSize(t.width, t.height))
  {
    var o := k.output;
    match OutputSize(k, store, surface)
    case None => Err(SizeNotSet)
    case Some(size) =>
      var viewport := Rect(Or(o.x, 0), Or(o.y, 0), size.0, size.1);
      var dims := if k.tables.hasOutputDimensions then Some(Dims(size.0, size.1)) else None;
      var bindings := SamplerBindings(k.tables.samplers, store);
      match o.target
      case Canvas => Ok(RunResult(store, Draw(Screen, viewport, bindings, dims), None))
      case Into(id) => Ok(RunResult(store, Draw(Framebuffer(id), viewport, bindings, dims), None))
      case TextureMode =>
        var w, h := o.width.value, o.height.value;
        var created := IndexTexture.UploadData(Create(w, h), Zeros(ByteSize(w, h)), Bare).value;
        var store' := store + [created];
        assert store'[..|store|] == store;
        Ok(RunResult(store', Draw(Framebuffer(|store|), viewport, bindings, dims), Some(|store|)))
  }

  /** Once `output` has named "canvas" or a texture, the kernel never goes
      back to "texture" mode: neither `arg` nor any later `output` can
      name it again. */
  lemma TextureModeIsFinal(k: Kernel, store: Store, call: OutputCall, name: string, value: Value)
    requires Wf(k, store) && !k.output.target.TextureMode?
    requires call.Aim? && call.aim.AimTexture? ==> call.aim.id < |store|
    requires ValueIn(value, store)
    ensures Output(k, store, call).Ok? ==> !Output(k, store, call).value.0.output.target.TextureMode?
    ensures Arg(k, store, name, value).Ok? ==> !Arg(k, store, name, value).value.0.output.target.TextureMode?
  {
  }

  /** Sizes given to `output` reach the viewport of the next `run`
      unchanged, whatever the canvas size. */
  lemma OutputThenRun(k: Kernel, store: Store, surface: Surface, x: int, y: int, w: nat, h: nat)
    requires Wf(k, store) && w > 0 && h > 0
    ensures var o := Output(k, store, Aim(AimCanvas, Some(Position(x, Some(y), Some(w), Some(h)))));
      && o.Ok?
      && Run(o.value.0, o.value.1, surface).Ok?
      && Run(o.value.0, o.value.1, surface).value.draw.dest == Screen
      && Run(o.value.0, o.value.1, surface).value.draw.viewport == Rect(x, y, w, h)
  {
  }

  /** A new kernel told only `output(texture)` draws into that texture's
      framebuffer over the whole texture, and returns nothing. */
  lemma OutputTextureThenRun(k: Kernel, store: Store, surface: Surface, id: TexId)
    requires Wf(k, store) && k.output == Initial && id < |store|
    ensures var o := Output(k, store, Aim(AimTexture(id), None));
      && o.Ok?
      && Run(o.value.0, o.value.1, surface).Ok?
      && Run(o.value.0, o.value.1, surface).value.draw.dest == Framebuffer(id)
      && Run(o.value.0, o.value.1, surface).value.draw.viewport == Rect(0, 0, store[id].width, store[id].height)
      && Run(o.value.0, o.value.1, surface).value.returned.None?
  {
  }

  /** In "texture" mode every `run` returns a texture of its own: two runs in
      a row hand back two different textures, both of the output size. */
  lemma RunsReturnDistinct(k: Kernel, store: Store, surface: Surface)
    requires Wf(k, store) && k.output.target.TextureMode? && k.output.width.Some? && k.output.height.Some?
    ensures var first := Run(k, store, surface).value;
      var second := Run(k, first.store, surface).value;
      && first.returned.Some? && second.returned.Some?
      && first.returned.value != second.returned.value
      && second.store[first.returned.value] == first.store[first.returned.value]
  {
  }

  /** A texture given to a sampler with `arg` is bound, on that sampler's
      unit, by the next `run` whose size is known. */
  lemma ArgThenRunBinds(k: Kernel, store: Store, surface: Surface, name: string, id: TexId)
    requires Wf(k, store) && id < |store|
    requires Arg(k, store, name, Tex(id)).Ok?
    requires !k.output.target.TextureMode? || (k.output.width.Some? && k.output.height.Some?)
    ensures var a := Arg(k, store, name, Tex(id)).value;
      var j := Lookup(k.tables, name).value.index;
      && Run(a.0, a.1, surface).Ok?
      && BindingOf(a.0.tables.samplers[j], a.1) in Run(a.0, a.1, surface).value.draw.bindings
      && BindingOf(a.0.tables.samplers[j], a.1).unit == j
      && BindingOf(a.0.tables.samplers[j], a.1).texture == id
  {
  }
}
