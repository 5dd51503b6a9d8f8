/** The parameter tables a `Kernel` builds from its shader (index.ts and
    src/kernel.ts share this code): plain slots for numeric uniforms, sampler
    slots for `sampler2D` uniforms with consecutive texture units, and the
    lookups `getArgType` and `arg` perform on them.  Whether the linked
    program reports a location for a name is the set `active`. */
module Tables {
  import opened Results
  import opened Text
  import opened Scanner
  import opened Textures

  const Sampler2D: string := "sampler2D"
  const Reserved: string := "output"
  const InternalPrefix: string := "glu_"
  const OutputDimensionsName: string := "glu_output_dimensions"

  /** The uniform a shader may declare to receive a sampler's size. */
  function DimensionsName(name: string): string {
    InternalPrefix + name + "_dimensions"
  }

  datatype PlainSlot = PlainSlot(name: string, typ: string)

  /** `texture` is the texture bound by `arg`; `hasDimensions` says whether
      the program has a location for `DimensionsName(name)`. */
  datatype SamplerSlot = SamplerSlot(name: string, unit: nat, texture: Option<TexId>, hasDimensions: bool)

  datatype Tables = Tables(plain: seq<PlainSlot>, samplers: seq<SamplerSlot>, hasOutputDimensions: bool)

  /** A located declaration enters a table unless its name is internal. */
  predicate Enters(d: Decl, active: set<string>) {
    d.name in active && !StartsWith(d.name, InternalPrefix)
  }

  /** The plain slots the first `n` declarations produce: the reference
      reading of the constructor loop, one declaration at a time. */
  function PlainUpTo(ds: seq<Decl>, active: set<string>, n: nat): (ps: seq<PlainSlot>)
    requires n <= |ds|
    ensures |ps| <= n
    ensures forall i :: 0 <= i < |ps| ==> ps[i].typ != Sampler2D
  {
    if n == 0 then []
    else
      var d := ds[n - 1];
      PlainUpTo(ds, active, n - 1) + (if Enters(d, active) && d.typ != Sampler2D then [PlainSlot(d.name, d.typ)] else [])
  }

  /** The sampler slots the first `n` declarations produce: the `j`-th
      sampler that enters gets texture unit `j`. */
  function SamplersUpTo(ds: seq<Decl>, active: set<string>, n: nat): (ss: seq<SamplerSlot>)
    requires n <= |ds|
    ensures |ss| <= n
    ensures forall j :: 0 <= j < |ss| ==>
      && ss[j].unit == j && ss[j].texture.None?
      && ss[j].hasDimensions == (DimensionsName(ss[j].name) in active)
  {
    if n == 0 then []
    else
      var d := ds[n - 1];
      var before := SamplersUpTo(ds, active, n - 1);
      before + (if Enters(d, active) && d.typ == Sampler2D then [SamplerSlot(d.name, |before|, None, DimensionsName(d.name) in active)] else [])
  }

  /** `d` is one of the first `n` declarations and enters a table. */
  predicate EntersAmong(ds: seq<Decl>, active: set<string>, n: nat, d: Decl)
    requires n <= |ds|
  {
    exists k :: 0 <= k < n && Enters(ds[k], active) && ds[k] == d
  }

  /** Every plain slot comes from an entering declaration of a non-sampler
      type, and every such declaration has a plain slot. */
  lemma {:induction false} PlainMembers(ds: seq<Decl>, active: set<string>, n: nat)
    requires n <= |ds|
    ensures forall i :: 0 <= i < |PlainUpTo(ds, active, n)| ==>
      EntersAmong(ds, active, n, Decl(PlainUpTo(ds, active, n)[i].typ, PlainUpTo(ds, active, n)[i].name))
    ensures forall k :: 0 <= k < n && Enters(ds[k], active) && ds[k].typ != Sampler2D ==>
      PlainSlot(ds[k].name, ds[k].typ) in PlainUpTo(ds, active, n)
  {
    if n > 0 {
      PlainMembers(ds, active, n - 1);
      var before, ps := PlainUpTo(ds, active, n - 1), PlainUpTo(ds, active, n);
      forall i | 0 <= i < |ps|
        ensures EntersAmong(ds, active, n, Decl(ps[i].typ, ps[i].name))
      {
        if i < |before| {
          assert ps[i] == before[i];
          var k :| 0 <= k < n - 1 && Enters(ds[k], active) && ds[k] == Decl(before[i].typ, before[i].name);
          assert 0 <= k < n && Enters(ds[k], active) && ds[k] == Decl(ps[i].typ, ps[i].name);
        } else {
          assert ds[n - 1] == Decl(ps[i].typ, ps[i].name) && Enters(ds[n - 1], active);
        }
      }
    }
  }

  function SlotNames(ss: seq<SamplerSlot>): (ns: seq<string>)
    ensures |ns| == |ss| && forall j :: 0 <= j < |ns| ==> ns[j] == ss[j].name
  {
    seq(|ss|, j requires 0 <= j < |ss| => ss[j].name)
  }

  /** Every sampler slot comes from an entering `sampler2D` declaration. */
  lemma {:induction false} SamplerOrigins(ds: seq<Decl>, active: set<string>, n: nat)
    requires n <= |ds|
    ensures forall j :: 0 <= j < |SamplersUpTo(ds, active, n)| ==>
      EntersAmong(ds, active, n, Decl(Sampler2D, SamplersUpTo(ds, active, n)[j].name))
  {
    if n > 0 {
      SamplerOrigins(ds, active, n - 1);
      var before, ss := SamplersUpTo(ds, active, n - 1), SamplersUpTo(ds, active, n);
      forall j | 0 <= j < |ss|
        ensures EntersAmong(ds, active, n, Decl(Sampler2D, ss[j].name))
      {
        if j < |before| {
          assert ss[j] == before[j];
          var k :| 0 <= k < n - 1 && Enters(ds[k], active) && ds[k] == Decl(Sampler2D, before[j].name);
          assert 0 <= k < n && Enters(ds[k], active) && ds[k] == Decl(Sampler2D, ss[j].name);
        } else {
          assert ds[n - 1] == Decl(Sampler2D, ss[j].name) && Enters(ds[n - 1], active);
        }
      }
    }
  }

  /** Every entering `sampler2D` declaration has a sampler slot. */
  lemma {:induction false} SamplersComplete(ds: seq<Decl>, active: set<string>, n: nat)
    requires n <= |ds|
    ensures forall k :: 0 <= k < n && Enters(ds[k], active) && ds[k].typ == Sampler2D ==>
      ds[k].name in SlotNames(SamplersUpTo(ds, active, n))
  {
    if n > 0 {
      SamplersComplete(ds, active, n - 1);
      var before, ss := SamplersUpTo(ds, active, n - 1), SamplersUpTo(ds, active, n);
      forall k | 0 <= k < n && Enters(ds[k], active) && ds[k].typ == Sampler2D
        ensures ds[k].name in SlotNames(ss)
      {
        if k < n - 1 {
          var j :| 0 <= j < |before| && SlotNames(before)[j] == ds[k].name;
          assert ss[j] == before[j];
          assert SlotNames(ss)[j] == ds[k].name;
        } else {
          assert SlotNames(ss)[|before|] == ds[k].name;
        }
      }
    }
  }

  /** No slot carries an internal name, nor the reserved one when no located
      declaration uses it. */
  lemma {:induction false} SlotNamesAllowed(ds: seq<Decl>, active: set<string>, n: nat)
    requires n <= |ds|
    requires forall k :: 0 <= k < n ==> !(Reserved in active && ds[k].name == Reserved)
    ensures forall i :: 0 <= i < |PlainUpTo(ds, active, n)| ==>
      PlainUpTo(ds, active, n)[i].name != Reserved && !StartsWith(PlainUpTo(ds, active, n)[i].name, InternalPrefix)
    ensures forall j :: 0 <= j < |SamplersUpTo(ds, active, n)| ==>
      SamplersUpTo(ds, active, n)[j].name != Reserved && !StartsWith(SamplersUpTo(ds, active, n)[j].name, InternalPrefix)
  {
    if n > 0 {
      SlotNamesAllowed(ds, active, n - 1);
      var pb, ps := PlainUpTo(ds, active, n - 1), PlainUpTo(ds, active, n);
      var sb, ss := SamplersUpTo(ds, active, n - 1), SamplersUpTo(ds, active, n);
      assert forall i :: 0 <= i < |pb| ==> ps[i] == pb[i];
      assert forall j :: 0 <= j < |sb| ==> ss[j] == sb[j];
    }
  }

  /** Some located declaration uses the reserved name. */
  predicate DeclaresReserved(ds: seq<Decl>, active: set<string>) {
    Reserved in active && exists i :: 0 <= i < |ds| && ds[i].name == Reserved
  }

  /** The tables as the constructor leaves them: no internal or reserved
      names, no sampler among the plain slots, units numbered from 0. */
  predicate WellFormed(t: Tables) {
    && (forall i :: 0 <= i < |t.plain| ==>
         t.plain[i].typ != Sampler2D && t.plain[i].name != Reserved && !StartsWith(t.plain[i].name, InternalPrefix))
    && (forall j :: 0 <= j < |t.samplers| ==>
         t.samplers[j].unit == j && t.samplers[j].name != Reserved && !StartsWith(t.samplers[j].name, InternalPrefix))
  }

  /** The constructor's loop over the scanned declarations. */
  method Build(decls: seq<Decl>, active: set<string>) returns (r: Result<Tables>)
    ensures r.Err? <==> DeclaresReserved(decls, active)
    ensures r.Err? ==> r.error == ReservedName
    ensures r.Ok? ==> r.value.plain == PlainUpTo(decls, active, |decls|)
    ensures r.Ok? ==> r.value.samplers == SamplersUpTo(decls, active, |decls|)
    ensures r.Ok? ==> r.value.hasOutputDimensions == (OutputDimensionsName in active)
    ensures r.Ok? ==> WellFormed(r.value)
  {
    var plain: seq<PlainSlot> := [];
    var samplers: seq<SamplerSlot> := [];
    var nextUnit: nat := 0;
    for i := 0 to |decls|
      invariant plain == PlainUpTo(decls, active, i)
      invariant samplers == SamplersUpTo(decls, active, i)
      invariant nextUnit == |samplers|
      invariant forall j :: 0 <= j < i ==> !(Reserved in active && decls[j].name == Reserved)
    {
      var d := decls[i];
      if d.name !in active {
        continue;
      }
      if d.name == Reserved {
        return Err(ReservedName);
      }
      if StartsWith(d.name, InternalPrefix) {
        continue;
      }
      if d.typ == Sampler2D {
        samplers := samplers + [SamplerSlot(d.name, nextUnit, None, DimensionsName(d.name) in active)];
        nextUnit := nextUnit + 1;
      } else {
        plain := plain + [PlainSlot(d.name, d.typ)];
      }
    }
    SlotNamesAllowed(decls, active, |decls|);
    r := Ok(Tables(plain, samplers, OutputDimensionsName in active));
  }

  /** The constructor: scan the source (no precision qualifiers), then build the tables. */
  method Construct(src: string, active: set<string>) returns (r: Result<Tables>)
    ensures r.Err? <==> ExtractUniforms(Plain, src).Err? || DeclaresReserved(ExtractUniforms(Plain, src).value, active)
    ensures r.Err? ==> r.error == if ExtractUniforms(Plain, src).Err? then MissingWord else ReservedName
    ensures r.Ok? ==> WellFormed(r.value)
    ensures r.Ok? ==> r.value.plain == PlainUpTo(ExtractUniforms(Plain, src).value, active, |ExtractUniforms(Plain, src).value|)
    ensures r.Ok? ==> r.value.samplers == SamplersUpTo(ExtractUniforms(Plain, src).value, active, |ExtractUniforms(Plain, src).value|)
    ensures r.Ok? ==> r.value.hasOutputDimensions == (OutputDimensionsName in active)
  {
    var scanned := ExtractUniforms(Plain, src);
    if scanned.Err? {
      return Err(scanned.error);
    }
    r := Build(scanned.value, active);
  }

  /** The repository's `find`: the position of the first element equal to `name`. */
  function Find(names: seq<string>, name: string): (r: Option<nat>)
    ensures r.None? <==> name !in names
    ensures r.Some? ==> r.value < |names| && names[r.value] == name
    ensures r.Some? ==> forall j :: 0 <= j < r.value ==> names[j] != name
  {
    if |names| == 0 then None
    else if names[0] == name then Some(0)
    else
      match Find(names[1..], name)
      case None => None
      case Some(i) => Some(i + 1)
  }

  function PlainNames(t: Tables): (ns: seq<string>)
    ensures |ns| == |t.plain| && forall i :: 0 <= i < |ns| ==> ns[i] == t.plain[i].name
  {
    seq(|t.plain|, i requires 0 <= i < |t.plain| => t.plain[i].name)
  }

  function SamplerNames(t: Tables): (ns: seq<string>)
    ensures |ns| == |t.samplers| && forall j :: 0 <= j < |ns| ==> ns[j] == t.samplers[j].name
  {
    SlotNames(t.samplers)
  }

  /** The slot `uniformsEntry || textureUniformsEntry` picks. */
  datatype Entry = PlainEntry(index: nat) | SamplerEntry(index: nat)

  /** Find a name among the plain slots first, then among the sampler slots. */
  function Lookup(t: Tables, name: string): (r: Option<Entry>)
    ensures r.None? <==> name !in PlainNames(t) && name !in SamplerNames(t)
    ensures r.Some? && r.value.PlainEntry? ==>
      r.value.index < |t.plain| && t.plain[r.value.index].name == name
      && forall j :: 0 <= j < r.value.index ==> t.plain[j].name != name
    ensures r.Some? && r.value.SamplerEntry? ==>
      name !in PlainNames(t) && r.value.index < |t.samplers| && t.samplers[r.value.index].name == name
      && forall j :: 0 <= j < r.value.index ==> t.samplers[j].name != name
  {
    match Find(PlainNames(t), name)
    case Some(i) => Some(PlainEntry(i))
    case None =>
      match Find(SamplerNames(t), name)
      case Some(j) => Some(SamplerEntry(j))
      case None => None
  }

  /** The declared type of the slot an entry points at. */
  function EntryType(t: Tables, e: Entry): string
    requires e.PlainEntry? ==> e.index < |t.plain|
  {
    if e.PlainEntry? then t.plain[e.index].typ else Sampler2D
  }

  /** `getArgType(name)`: the declared type of the first matching slot, plain slots first. */
  function GetArgType(t: Tables, name: string): (r: Option<string>)
    ensures r.None? <==>
      && (forall i :: 0 <= i < |t.plain| ==> t.plain[i].name != name)
      && (forall j :: 0 <= j < |t.samplers| ==> t.samplers[j].name != name)
    ensures forall i :: 0 <= i < |t.plain| && t.plain[i].name == name ==>
      ((forall j :: 0 <= j < i ==> t.plain[j].name != name) ==> r == Some(t.plain[i].typ))
    ensures (forall i :: 0 <= i < |t.plain| ==> t.plain[i].name != name) ==>
      ((exists j :: 0 <= j < |t.samplers| && t.samplers[j].name == name) ==> r == Some(Sampler2D))
  {
    match Lookup(t, name)
    case None => None
    case Some(e) => Some(EntryType(t, e))
  }

  /** In tables the constructor built, every name that resolves is free of the
      internal prefix, so the extra `glu_` test in `arg` never decides anything. */
  lemma InternalNamesNeverResolve(t: Tables, name: string)
    requires WellFormed(t) && StartsWith(name, InternalPrefix)
    ensures Lookup(t, name).None?
  {
  }

  /** `entry.texture = value` on sampler slot `j`. */
  function BindTexture(t: Tables, j: nat, id: TexId): (r: Tables)
    requires j < |t.samplers|
    ensures r.plain == t.plain && r.hasOutputDimensions == t.hasOutputDimensions
    ensures |r.samplers| == |t.samplers| && r.samplers[j].texture == Some(id)
    ensures forall i :: 0 <= i < |t.samplers| ==>
      && r.samplers[i].name == t.samplers[i].name && r.samplers[i].unit == t.samplers[i].unit
      && r.samplers[i].hasDimensions == t.samplers[i].hasDimensions
      && (i != j ==> r.samplers[i] == t.samplers[i])
  {
    t.(samplers := t.samplers[j := t.samplers[j].(texture := Some(id))])
  }

  lemma BindKeepsWellFormed(t: Tables, j: nat, id: TexId)
    requires WellFormed(t) && j < |t.samplers|
    ensures WellFormed(BindTexture(t, j, id))
  {
  }
}
