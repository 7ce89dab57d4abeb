/**
 The mip-map generator (`gs::mipmapper`): its constructor and `rebuild`.
 `rebuild` is a pure function from the generator's state and its arguments
 to either the error it raises or the graphics trace it issues together with
 the generator's new state.
 */
module Mipmapper {

  import opened Wrappers
  import opened Graphics
  import opened Quad
  import opened Generators
  import opened MipCascade
  import opened Traces

  /**
   The generator's state: the vertex buffer written by the constructor and
   the colour format of the cached scratch render target (None until the
   first validated call).
   */
  datatype Mipmapper = Mipmapper(vertexBuffer: seq<Vertex>, renderTarget: Option<ColorFormat>)

  /** The errors `rebuild` raises (all `std::invalid_argument`). */
  datatype RebuildError = SizeMismatch | TypeMismatch | FormatMismatch

  /** A completed call: the graphics calls it issued and the generator afterwards. */
  datatype Rebuilt = Rebuilt(trace: seq<Event>, engine: Mipmapper)

  /** The constructor: the unit quad in the vertex buffer, no render target yet. */
  function New(): (m: Mipmapper)
    ensures m.vertexBuffer == UnitQuad() && |m.vertexBuffer| == 6
    ensures m.renderTarget == None
  {
    Mipmapper(UnitQuad(), None)
  }

  /**
   The first mismatch between source and target, checked in the order
   size, then type, then format; None when they agree on all three.
   */
  function Validate(source: Texture, target: Texture): (e: Option<RebuildError>)
    ensures e == Some(SizeMismatch) <==> source.width != target.width || source.height != target.height
    ensures e == Some(TypeMismatch) <==>
      source.width == target.width && source.height == target.height && source.kind != target.kind
    ensures e == Some(FormatMismatch) <==>
      source.width == target.width && source.height == target.height && source.kind == target.kind
      && source.format != target.format
    ensures e == None <==>
      (source.width == target.width && source.height == target.height
       && source.kind == target.kind && source.format == target.format)
  {
    if source.width != target.width || source.height != target.height then Some(SizeMismatch)
    else if source.kind != target.kind then Some(TypeMismatch)
    else if source.format != target.format then Some(FormatMismatch)
    else None
  }

  /** Whether the scratch render target must be (re)created for format `format`. */
  function NeedsNewRenderTarget(cached: Option<ColorFormat>, format: ColorFormat): (recreate: bool)
    ensures recreate <==> cached != Some(format)
  {
    match cached
    case None => true
    case Some(f) => format != f
  }

  /** Whether the mip cascade runs: an ordinary 2D source on a Direct3D 11 device. */
  predicate CascadeRuns(source: Texture, device: DeviceType) {
    source.kind == Normal && device == Direct3D11
  }

  /** The number of render/copy passes: max(MipLevels - 1, 0) when the cascade runs, else 0. */
  function PassCount(source: Texture, target: Texture, device: DeviceType): nat {
    if CascadeRuns(source, device) && target.mipLevels > 0 then target.mipLevels - 1 else 0
  }

  /** Unbinding both buffers and releasing the graphics context. */
  const Teardown: seq<Event> := [ClearIndexBuffer, ClearVertexBuffer, LeaveGraphics]

  /** The render target the passes draw into: the new one, or the cached one when it is kept. */
  function PassTarget(m: Mipmapper, source: Texture): (f: ColorFormat)
    ensures f == source.format
  {
    if NeedsNewRenderTarget(m.renderTarget, source.format) then source.format
    else m.renderTarget.value
  }

  /**
   Entering the graphics context, copying level 0, recreating the render
   target when needed, and binding the quad with no index buffer.
   */
  function Setup(m: Mipmapper, source: Texture): (tr: seq<Event>)
    ensures NoMipWork(tr)
    // enter, then copy level 0 ...
    ensures |tr| >= 4 && tr[0] == EnterGraphics && tr[1] == CopyTexture(Target, Source)
    // ... then at most one render-target creation, exactly when one is needed ...
    ensures |tr| == if NeedsNewRenderTarget(m.renderTarget, source.format) then 5 else 4
    ensures CreateRenderTarget(source.format) in tr <==> NeedsNewRenderTarget(m.renderTarget, source.format)
    ensures forall i :: 0 <= i < |tr| && tr[i].CreateRenderTarget? ==> i == 2
    // ... and the quad bound with no index buffer last
    ensures tr[|tr| - 2] == LoadVertexBuffer(|m.vertexBuffer|) && tr[|tr| - 1] == ClearIndexBuffer
  {
    [EnterGraphics, CopyTexture(Target, Source)]
    + (if NeedsNewRenderTarget(m.renderTarget, source.format) then [CreateRenderTarget(source.format)] else [])
    + [LoadVertexBuffer(|m.vertexBuffer|), ClearIndexBuffer]
  }

  /**
   The rest of the graphics section: the cascade and the teardown on
   Direct3D 11 for an ordinary 2D source; an early leave, without unbinding,
   when the target has no mip levels; only the teardown otherwise.
   */
  function MipStage(m: Mipmapper, source: Texture, target: Texture, device: DeviceType,
                    generator: Generator, strength: real): seq<Event>
  {
    if CascadeRuns(source, device) then
      if target.mipLevels == 0 then [LeaveGraphics]
      else Cascade(1, target.mipLevels, source.width, source.height, TechniqueName(generator), strength,
                   PassTarget(m, source), |m.vertexBuffer|) + Teardown
    else Teardown
  }

  /**
   The mip stage is one pass and one copy per mip level beyond 0, in the
   closed form of the cascade, followed by only the leave on the early
   return for a target without mip levels and by the full teardown otherwise.
   */
  lemma MipStageShape(m: Mipmapper, source: Texture, target: Texture, device: DeviceType,
                      generator: Generator, strength: real)
    ensures var stage := MipStage(m, source, target, device, generator, strength);
      var n := 2 * PassCount(source, target, device);
      && |stage| >= n
      && (forall i :: 0 <= i < n ==>
            stage[i] == CascadeEvent(1, i, source.width, source.height, TechniqueName(generator), strength,
                                     source.format, |m.vertexBuffer|))
      && stage[n..] == if CascadeRuns(source, device) && target.mipLevels == 0 then [LeaveGraphics] else Teardown
  {
  }

  /** The graphics section of a validated call and the generator afterwards. */
  function Render(m: Mipmapper, source: Texture, target: Texture, device: DeviceType,
                  generator: Generator, strength: real): Rebuilt
  {
    Rebuilt(Setup(m, source) + MipStage(m, source, target, device, generator, strength),
            m.(renderTarget := Some(PassTarget(m, source))))
  }

  /**
   The graphics section starts with the setup, ends with the leave, has the
   length of the setup, the passes and copies and the closing events, and
   caches a render target in the source's format.
   */
  lemma RenderShape(m: Mipmapper, source: Texture, target: Texture, device: DeviceType,
                    generator: Generator, strength: real)
    ensures var r := Render(m, source, target, device, generator, strength);
      var setup := Setup(m, source);
      && r.engine == m.(renderTarget := Some(source.format))
      && |r.trace| == |setup| + 2 * PassCount(source, target, device)
                      + (if CascadeRuns(source, device) && target.mipLevels == 0 then 1 else 3)
      && r.trace[..|setup|] == setup
      && r.trace[|r.trace| - 1] == LeaveGraphics
  {
    MipStageShape(m, source, target, device, generator, strength);
  }

  /**
   `rebuild(source, target, generator = Linear, strength = 1.0)` on a device
   of type `device`. Absent textures make it a no-op; a mismatch raises the
   first failing check's error before any graphics call; otherwise it runs
   the graphics section.
   */
  function Rebuild(m: Mipmapper, source: Option<Texture>, target: Option<Texture>, device: DeviceType,
                   generator: Generator := Linear, strength: real := 1.0): (r: Result<Rebuilt, RebuildError>)
    ensures source.None? || target.None? ==> r == Success(Rebuilt([], m))
    ensures source.Some? && target.Some? ==>
      (r.Failure? <==> Validate(source.value, target.value).Some?)
    ensures r.Failure? ==> Validate(source.value, target.value) == Some(r.error)
  {
    if source.None? || target.None? then Success(Rebuilt([], m))
    else
      match Validate(source.value, target.value)
      case Some(e) => Failure(e)
      case None => Success(Render(m, source.value, target.value, device, generator, strength))
  }
}
