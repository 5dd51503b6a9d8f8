/** The functional API of src/program.ts: a program is a record of uniforms,
    and `arg`, `viewport` and `target` each return it updated.  Unlike the
    two kernels it keeps one list of uniforms in declaration order, reads
    precision qualifiers, drops declarations of other types, reserves no
    names, and refuses to draw while a uniform has no value. */
module Pipeline {
  import opened Results
  import opened Text
  import opened Scanner
  import opened Textures
  import opened Tables
  import opened Execution
  import TypedKernel

  /** A located uniform: a number or vector that may have been given a value
      (`initialized`), or a sampler with its texture unit and texture. */
  datatype Uniform =
    | Scalar(name: string, typ: string, initialized: bool)
    | Sampler(name: string, unit: nat, texture: Option<TexId>)

  /** The framebuffer `run` binds: the canvas, or a texture. */
  datatype Target = Canvas | Into(id: TexId)

  /** A program and the settings `viewport` and `target` add to it. */
  datatype Program = Program(uniforms: seq<Uniform>, target: Option<Target>, viewport: Option<Rect>)

  predicate IsScalarType(typ: string) {
    typ == "float" || typ == "vec2" || typ == "vec3" || typ == "vec4"
  }

  /** The number of samplers among the first `n` uniforms. */
  function CountSamplers(us: seq<Uniform>, n: nat): nat
    requires n <= |us|
  {
    if n == 0 then 0 else CountSamplers(us, n - 1) + (if us[n - 1].Sampler? then 1 else 0)
  }

  lemma {:induction false} CountPrefix(us: seq<Uniform>, more: seq<Uniform>, n: nat)
    requires n <= |us|
    ensures CountSamplers(us + more, n) == CountSamplers(us, n)
  {
    if n > 0 {
      CountPrefix(us, more, n - 1);
    }
  }

  /** Texture units are handed out 0, 1, 2, ... to the samplers in order. */
  predicate UnitsInOrder(us: seq<Uniform>) {
    forall i :: 0 <= i < |us| && us[i].Sampler? ==> us[i].unit == CountSamplers(us, i)
  }

  /** A scanned declaration becomes a uniform when the program locates its
      name and its type is one of the five the API knows. */
  predicate Kept(d: Decl, active: set<string>) {
    d.name in active && (IsScalarType(d.typ) || d.typ == Sampler2D)
  }

  /** The uniforms the first `n` declarations produce: the reference reading
      of `extractUniforms`' loop. */
  function Collected(ds: seq<Decl>, active: set<string>, n: nat): (us: seq<Uniform>)
    requires n <= |ds|
    ensures |us| <= n
    ensures forall i :: 0 <= i < |us| ==>
      && (us[i].Scalar? ==> IsScalarType(us[i].typ) && !us[i].initialized)
      && (us[i].Sampler? ==> us[i].texture.None?)
  {
    if n == 0 then []
    else
      var us := Collected(ds, active, n - 1);
      var d := ds[n - 1];
      if d.name !in active then us
      else if IsScalarType(d.typ) then us + [Scalar(d.name, d.typ, false)]
      else if d.typ == Sampler2D then us + [Sampler(d.name, CountSamplers(us, |us|), None)]
      else us
  }

  /** The declared type and name a uniform came from. */
  function DeclOf(u: Uniform): Decl {
    Decl(if u.Scalar? then u.typ else Sampler2D, u.name)
  }

  predicate KeptAmong(ds: seq<Decl>, active: set<string>, n: nat, decl: Decl)
    requires n <= |ds|
  {
    exists k :: 0 <= k < n && Kept(ds[k], active) && ds[k] == decl
  }

  function UniformDecls(us: seq<Uniform>): (ds: seq<Decl>)
    ensures |ds| == |us| && forall i :: 0 <= i < |us| ==> ds[i] == DeclOf(us[i])
  {
    seq(|us|, i requires 0 <= i < |us| => DeclOf(us[i]))
  }

  /** Appending a uniform adds one to the count exactly when it is a sampler. */
  lemma CountAppend(us: seq<Uniform>, u: Uniform)
    ensures CountSamplers(us + [u], |us| + 1) == CountSamplers(us, |us|) + (if u.Sampler? then 1 else 0)
  {
    CountPrefix(us, [u], |us|);
  }

  /** Sampler units follow the order of the samplers. */
  lemma {:induction false} CollectedUnits(ds: seq<Decl>, active: set<string>, n: nat)
    requires n <= |ds|
    ensures UnitsInOrder(Collected(ds, active, n))
  {
    if n > 0 {
      CollectedUnits(ds, active, n - 1);
      var before := Collected(ds, active, n - 1);
      var after := Collected(ds, active, n);
      if |after| > |before| {
        var u := after[|before|];
        assert after == before + [u];
        forall i | 0 <= i <= |before|
          ensures CountSamplers(after, i) == CountSamplers(before, i)
        {
          CountPrefix(before, [u], i);
        }
      }
    }
  }

  /** Every uniform comes from a kept declaration. */
  lemma {:induction false} CollectedOrigins(ds: seq<Decl>, active: set<string>, n: nat)
    requires n <= |ds|
    ensures forall i :: 0 <= i < |Collected(ds, active, n)| ==> KeptAmong(ds, active, n, DeclOf(Collected(ds, active, n)[i]))
  {
    if n > 0 {
      CollectedOrigins(ds, active, n - 1);
      var before := Collected(ds, active, n - 1);
      var after := Collected(ds, active, n);
      forall i | 0 <= i < |after|
        ensures KeptAmong(ds, active, n, DeclOf(after[i]))
      {
        if i < |before| {
          assert after[i] == before[i];
          var k :| 0 <= k < n - 1 && Kept(ds[k], active) && ds[k] == DeclOf(before[i]);
          assert 0 <= k < n && Kept(ds[k], active) && ds[k] == DeclOf(after[i]);
        } else {
          assert Kept(ds[n - 1], active) && ds[n - 1] == DeclOf(after[i]);
        }
      }
    }
  }

  /** Every kept declaration gives a uniform. */
  lemma {:induction false} CollectedComplete(ds: seq<Decl>, active: set<string>, n: nat)
    requires n <= |ds|
    ensures forall k :: 0 <= k < n && Kept(ds[k], active) ==> ds[k] in UniformDecls(Collected(ds, active, n))
  {
    if n > 0 {
      CollectedComplete(ds, active, n - 1);
      var before := Collected(ds, active, n - 1);
      var after := Collected(ds, active, n);
      forall k | 0 <= k < n && Kept(ds[k], active)
        ensures ds[k] in UniformDecls(after)
      {
        if k < n - 1 {
          var i :| 0 <= i < |before| && UniformDecls(before)[i] == ds[k];
          assert after[i] == before[i];
          assert UniformDecls(after)[i] == ds[k];
        } else {
          assert UniformDecls(after)[|before|] == ds[k];
        }
      }
    }
  }

  /** The uniform declaration `d` adds to those before it, if any. */
  function Added(d: Decl, active: set<string>, before: seq<Uniform>): seq<Uniform> {
    if d.name !in active then []
    else if IsScalarType(d.typ) then [Scalar(d.name, d.typ, false)]
    else if d.typ == Sampler2D then [Sampler(d.name, CountSamplers(before, |before|), None)]
    else []
  }

  lemma CollectedStep(ds: seq<Decl>, active: set<string>, i: nat)
    requires i < |ds|
    ensures Collected(ds, active, i + 1) == Collected(ds, active, i) + Added(ds[i], active, Collected(ds, active, i))
  {
  }

  /** The loop of `extractUniforms` over the scanned declarations, with its
      running texture unit counter. */
  method Collect(ds: seq<Decl>, active: set<string>) returns (us: seq<Uniform>)
    ensures us == Collected(ds, active, |ds|)
    ensures UnitsInOrder(us)
  {
    us := [];
    var unit: nat := 0;
    for i := 0 to |ds|
      invariant us == Collected(ds, active, i)
      invariant unit == CountSamplers(us, |us|)
    {
      var d := ds[i];
      CollectedStep(ds, active, i);
      if d.name !in active {
        continue;
      }
      if IsScalarType(d.typ) {
        CountAppend(us, Scalar(d.name, d.typ, false));
        us := us + [Scalar(d.name, d.typ, false)];
      }
      if d.typ == Sampler2D {
        CountAppend(us, Sampler(d.name, unit, None));
        us := us + [Sampler(d.name, unit, None)];
        unit := unit + 1;
      }
    }
    CollectedUnits(ds, active, |ds|);
  }

  /** `fragmentShader(source)` applied to a program: scan the source
      (precision qualifiers allowed), then keep the located declarations of
      a known type, numbering the samplers' texture units. */
  method FromSource(src: string, active: set<string>) returns (r: Result<Program>)
    ensures r.Err? <==> ExtractUniforms(Qualified, src).Err?
    ensures r.Err? ==> r.error == MissingWord
    ensures r.Ok? ==> r.value.target.None? && r.value.viewport.None?
    ensures r.Ok? ==> r.value.uniforms == Collected(ExtractUniforms(Qualified, src).value, active, |ExtractUniforms(Qualified, src).value|)
    ensures r.Ok? ==> UnitsInOrder(r.value.uniforms)
  {
    var scanned := ExtractUniforms(Qualified, src);
    if scanned.Err? {
      return Err(scanned.error);
    }
    var us := Collect(scanned.value, active);
    r := Ok(Program(us, None, None));
  }

  function UniformNames(us: seq<Uniform>): (ns: seq<string>)
    ensures |ns| == |us| && forall i :: 0 <= i < |us| ==> ns[i] == us[i].name
  {
    seq(|us|, i requires 0 <= i < |us| => us[i].name)
  }

  /** The type test of `arg`: a number fits `float`, any array fits one of
      the vector types, whatever its length, and any texture fits a sampler. */
  predicate Fits(u: Uniform, v: Value) {
    match v
    case Number(_) => u.Scalar? && u.typ == "float"
    case Array(_) => u.Scalar? && (u.typ == "vec2" || u.typ == "vec3" || u.typ == "vec4")
    case Tex(_) => u.Sampler?
  }

  /** A uniform `run` accepts: a scalar with a value, or a sampler with a texture. */
  predicate Complete(u: Uniform) {
    if u.Scalar? then u.initialized else u.texture.Some?
  }

  /** `arg(name, value)`: find the first uniform of that name; set it if the
      value fits its type. */
  function Arg(p: Program, name: string, value: Value): (r: Result<Program>)
    ensures r.Err? <==> name !in UniformNames(p.uniforms) || !Fits(p.uniforms[Find(UniformNames(p.uniforms), name).value], value)
    ensures r.Err? ==> r.error == if name !in UniformNames(p.uniforms) then InvalidUniformName else TypeMismatch
    ensures r.Ok? ==> r.value.target == p.target && r.value.viewport == p.viewport
    ensures r.Ok? ==> |r.value.uniforms| == |p.uniforms| && UniformDecls(r.value.uniforms) == UniformDecls(p.uniforms)
    ensures r.Ok? ==>
      var i := Find(UniformNames(p.uniforms), name).value;
      && Complete(r.value.uniforms[i])
      && (value.Tex? ==> r.value.uniforms[i] == p.uniforms[i].(texture := Some(value.id)))
      && (forall j :: 0 <= j < |p.uniforms| && j != i ==> r.value.uniforms[j] == p.uniforms[j])
      && (p.uniforms[i].Sampler? ==> r.value.uniforms[i].unit == p.uniforms[i].unit)
  {
    match Find(UniformNames(p.uniforms), name)
    case None => Err(InvalidUniformName)
    case Some(i) =>
      var u := p.uniforms[i];
      if !Fits(u, value) then Err(TypeMismatch)
      else
        var u' := if u.Scalar? then u.(initialized := true) else u.(texture := Some(value.id));
        var us := p.uniforms[i := u'];
        assert UniformDecls(us) == UniformDecls(p.uniforms);
        Ok(p.(uniforms := us))
  }

  /** Giving the same value twice is the same as giving it once. */
  lemma ArgIdempotent(p: Program, name: string, value: Value)
    requires Arg(p, name, value).Ok?
    ensures Arg(Arg(p, name, value).value, name, value) == Arg(p, name, value)
  {
    var q := Arg(p, name, value).value;
    assert UniformNames(q.uniforms) == UniformNames(p.uniforms);
    var i := Find(UniformNames(p.uniforms), name).value;
    var u := q.uniforms[i];
    assert Fits(u, value);
    assert (if u.Scalar? then u.(initialized := true) else u.(texture := Some(value.id))) == u;
    assert q.uniforms[i := u] == q.uniforms;
  }

  /** Values for two different names can be given in either order. */
  lemma ArgsCommute(p: Program, a: string, va: Value, b: string, vb: Value)
    requires a != b && Arg(p, a, va).Ok? && Arg(p, b, vb).Ok?
    ensures Arg(Arg(p, a, va).value, b, vb).Ok?
    ensures Arg(Arg(p, a, va).value, b, vb) == Arg(Arg(p, b, vb).value, a, va)
  {
    var pa, pb := Arg(p, a, va).value, Arg(p, b, vb).value;
    assert UniformNames(pa.uniforms) == UniformNames(p.uniforms);
    assert UniformNames(pb.uniforms) == UniformNames(p.uniforms);
    var i, j := Find(UniformNames(p.uniforms), a).value, Find(UniformNames(p.uniforms), b).value;
    assert Arg(pa, b, vb).value.uniforms == Arg(pb, a, va).value.uniforms;
  }

  /** The vector types take an array of any length, where the kernels
      accept only an array of matching length. */
  lemma ArrayLengthUnchecked(p: Program, name: string, elems: seq<real>)
    requires name in UniformNames(p.uniforms)
    requires p.uniforms[Find(UniformNames(p.uniforms), name).value] == Scalar(name, "vec4", false)
    requires |elems| != 4
    ensures Arg(p, name, Array(elems)).Ok?
    ensures !Accepts("vec4", Array(elems))
  {
    VecNameKnown(|elems|);
  }

  /** `viewport(x, y, width, height)`: the rectangle of the next draws. */
  function Viewport(p: Program, x: int, y: int, width: int, height: int): (r: Program)
    ensures r.uniforms == p.uniforms && r.target == p.target
    ensures r.viewport.Some? && r.viewport.value == Rect(x, y, width, height)
  {
    p.(viewport := Some(Rect(x, y, width, height)))
  }

  /** `target(t, x?, y?, width?, height?)`: the framebuffer of the next draws
      and a rectangle; a missing position is 0, a missing size is the
      drawing buffer's or the texture's, and a size given as 0 stays 0. */
  function SetTarget(p: Program, store: Store, surface: Surface, t: Target,
                     x: Option<int>, y: Option<int>, width: Option<int>, height: Option<int>): (r: Program)
    requires t.Into? ==> t.id < |store|
    ensures r.uniforms == p.uniforms && r.target == Some(t) && r.viewport.Some?
    ensures r.viewport.value.x == Or(x, 0) && r.viewport.value.y == Or(y, 0)
    ensures width.Some? ==> r.viewport.value.width == width.value
    ensures width.None? ==> r.viewport.value.width == if t.Canvas? then surface.bufferWidth else store[t.id].width
    ensures height.Some? ==> r.viewport.value.height == height.value
    ensures height.None? ==> r.viewport.value.height == if t.Canvas? then surface.bufferHeight else store[t.id].height
  {
    var (w, h) :=
      match t
      case Canvas => (surface.bufferWidth, surface.bufferHeight)
      case Into(id) => (store[id].width, store[id].height);
    p.(target := Some(t), viewport := Some(Rect(Or(x, 0), Or(y, 0),
                                                if width.Some? then width.value else w,
                                                if height.Some? then height.value else h)))
  }

  /** An explicit size of 0 is kept here, where `run` of src/kernel.ts
      replaces it by the target's size. */
  lemma ZeroSizeKept(p: Program, k: TypedKernel.Kernel, store: Store, surface: Surface, x: int, y: int)
    requires TypedKernel.Wf(k, store)
    ensures SetTarget(p, store, surface, Canvas, Some(x), Some(y), Some(0), Some(0)).viewport.value == Rect(x, y, 0, 0)
    ensures TypedKernel.Run(k, store, surface, TypedKernel.ToCanvas, Some(x), Some(y), Some(0), Some(0)).value.viewport
            == Rect(x, y, surface.canvasWidth, surface.canvasHeight)
  {
  }

  /** The later of `viewport` and `target` decides the rectangle. */
  lemma LastPlacementWins(p: Program, store: Store, surface: Surface, t: Target, x: int, y: int, w: int, h: int)
    requires t.Into? ==> t.id < |store|
    ensures Viewport(SetTarget(p, store, surface, t, None, None, None, None), x, y, w, h).viewport == Some(Rect(x, y, w, h))
    ensures SetTarget(Viewport(p, x, y, w, h), store, surface, t, None, None, None, None)
            == SetTarget(p, store, surface, t, None, None, None, None)
  {
  }

  /** The position of the first uniform without a value. */
  function FirstIncomplete(us: seq<Uniform>): (r: Option<nat>)
    ensures r.None? <==> forall i :: 0 <= i < |us| ==> Complete(us[i])
    ensures r.Some? ==> r.value < |us| && !Complete(us[r.value]) && forall i :: 0 <= i < r.value ==> Complete(us[i])
  {
    if |us| == 0 then None
    else if !Complete(us[0]) then Some(0)
    else
      assert forall i :: 1 <= i < |us| ==> us[i] == us[1..][i - 1];
      match FirstIncomplete(us[1..])
      case None => None
      case Some(i) => Some(i + 1)
  }

  /** The textures bound for the first `n` uniforms. */
  function BindingsUpTo(us: seq<Uniform>, n: nat): (bs: seq<Binding>)
    requires n <= |us|
    ensures |bs| <= n
  {
    if n == 0 then []
    else
      var u := us[n - 1];
      BindingsUpTo(us, n - 1) + if u.Sampler? && u.texture.Some? then [Binding(u.unit, u.texture.value, None)] else []
  }

  /** When every uniform has a value, each sampler is bound once, on its own unit. */
  lemma {:induction false} BindingsOfComplete(us: seq<Uniform>, n: nat)
    requires n <= |us| && forall i :: 0 <= i < n ==> Complete(us[i])
    ensures |BindingsUpTo(us, n)| == CountSamplers(us, n)
    ensures forall i :: 0 <= i < n && us[i].Sampler? && us[i].texture.Some? ==> Binding(us[i].unit, us[i].texture.value, None) in BindingsUpTo(us, n)
  {
    if n > 0 {
      BindingsOfComplete(us, n - 1);
    }
  }

  /** The framebuffer binding `run` asks for, as written: the canvas binds
      `null`, but a texture target passes the texture object itself, which
      `bindFramebuffer` refuses because it is not a framebuffer. */
  function BindTarget(t: Target): (r: Result<Dest>)
    ensures r.Ok? <==> t.Canvas?
    ensures r.Ok? ==> r.value == Screen
    ensures r.Err? ==> r.error == NotAFramebuffer
  {
    match t
    case Canvas => Ok(Screen)
    case Into(_) => Err(NotAFramebuffer)
  }

  /** The binding evidently intended: the texture's own framebuffer, as the
      other two variants bind it. */
  function BindTargetFixed(t: Target): (r: Result<Dest>)
    ensures r.Ok?
    ensures t.Canvas? ==> r.value == Screen
    ensures t.Into? ==> r.value == Framebuffer(t.id)
  {
    match t
    case Canvas => Ok(Screen)
    case Into(id) => Ok(Framebuffer(id))
  }

  /** The two bindings agree on the canvas and differ on every texture. */
  lemma BindingsDiffer(t: Target)
    ensures BindTarget(t).Ok? ==> BindTarget(t) == BindTargetFixed(t)
    ensures t.Into? ==> BindTarget(t).Err? && BindTargetFixed(t) == Ok(Framebuffer(t.id))
  {
  }

  /** `run(p)` as written: the binding comes first, so a program aimed at a
      texture fails before any uniform is looked at, and no draw ever
      reaches a texture. */
  method RunAsWritten(p: Program) returns (r: Result<Draw>)
    requires p.target.Some? && p.viewport.Some?
    ensures p.target.value.Into? ==> r == Err(NotAFramebuffer)
    ensures r.Ok? ==> r.value.dest == Screen
    ensures p.target.value.Canvas? ==> (r.Err? <==> FirstIncomplete(p.uniforms).Some?)
    ensures p.target.value.Canvas? && r.Err? ==> r.error == Unassigned(p.uniforms[FirstIncomplete(p.uniforms).value].name)
    ensures p.target.value.Canvas? && r.Ok? ==>
      r.value.viewport == p.viewport.value && r.value.bindings == BindingsUpTo(p.uniforms, |p.uniforms|)
  {
    var bound := BindTarget(p.target.value);
    if bound.Err? {
      return Err(bound.error);
    }
    r := Run(p);
  }

  /** `run(p)`: bind the target's framebuffer, then go through the uniforms
      in order, binding the samplers' textures and stopping at the first
      uniform without a value; draw only if there is none. */
  method Run(p: Program) returns (r: Result<Draw>)
    requires p.target.Some? && p.viewport.Some?
    ensures r.Err? <==> FirstIncomplete(p.uniforms).Some?
    ensures r.Err? ==> r.error == Unassigned(p.uniforms[FirstIncomplete(p.uniforms).value].name)
    ensures r.Ok? ==> r.value.dest == if p.target.value.Canvas? then Screen else Framebuffer(p.target.value.id)
    ensures r.Ok? ==> r.value.viewport == p.viewport.value && r.value.outputDimensions.None?
    ensures r.Ok? ==> r.value.bindings == BindingsUpTo(p.uniforms, |p.uniforms|)
  {
    var us := p.uniforms;
    var bindings: seq<Binding> := [];
    for i := 0 to |us|
      invariant bindings == BindingsUpTo(us, i)
      invariant forall j :: 0 <= j < i ==> Complete(us[j])
    {
      var u := us[i];
      if u.Scalar? && u.initialized {
        continue;
      }
      if u.Sampler? && u.texture.Some? {
        bindings := bindings + [Binding(u.unit, u.texture.value, None)];
        continue;
      }
      return Err(Unassigned(u.name));
    }
    var dest := BindTargetFixed(p.target.value).value;
    return Ok(Draw(dest, p.viewport.value, bindings, None));
  }

  /** A uniform given a value by `arg` is never the one `run` complains about. */
  lemma ArgClearsBlame(p: Program, name: string, value: Value)
    requires Arg(p, name, value).Ok?
    ensures var q := Arg(p, name, value).value;
      FirstIncomplete(q.uniforms) != Some(Find(UniformNames(p.uniforms), name).value)
  {
  }
}
