/**
 Repeated calls of `rebuild` on one generator instance. A call that raises
 issues no graphics call and leaves the instance as it was; the render
 target and the vertex buffer carry over from call to call.
 */
module Session {

  import opened Wrappers
  import opened Graphics
  import opened Generators
  import opened Mipmapper
  import opened Traces
  import opened RebuildProperties

  /** The arguments of one call. */
  datatype Call = Call(source: Option<Texture>, target: Option<Texture>, generator: Generator, strength: real)

  /** The instance after `calls` in order, and the graphics calls they issued, concatenated. */
  function Run(m: Mipmapper, calls: seq<Call>, device: DeviceType): Rebuilt
    decreases |calls|
  {
    if calls == [] then Rebuilt([], m)
    else
      var c := calls[0];
      match Rebuild(m, c.source, c.target, device, c.generator, c.strength)
      case Failure(_) => Run(m, calls[1..], device)
      case Success(r) =>
        var rest := Run(r.engine, calls[1..], device);
        Rebuilt(r.trace + rest.trace, rest.engine)
  }

  /** How many of `calls` pass validation and enter the graphics section. */
  function ValidatedCount(calls: seq<Call>): nat {
    if calls == [] then 0
    else (if Validated(calls[0].source, calls[0].target) then 1 else 0) + ValidatedCount(calls[1..])
  }

  /** The source format of the last validated call, or `initial` when there is none. */
  function LastFormat(calls: seq<Call>, initial: Option<ColorFormat>): Option<ColorFormat> {
    if calls == [] then initial
    else if Validated(calls[|calls| - 1].source, calls[|calls| - 1].target) then
      Some(calls[|calls| - 1].source.value.format)
    else LastFormat(calls[..|calls| - 1], initial)
  }

  /**
   The cached render target always has the source format of the last
   validated call, and the vertex buffer is never touched.
   */
  lemma {:induction false} RunCache(m: Mipmapper, calls: seq<Call>, device: DeviceType)
    ensures Run(m, calls, device).engine.vertexBuffer == m.vertexBuffer
    ensures Run(m, calls, device).engine.renderTarget == LastFormat(calls, m.renderTarget)
    decreases |calls|
  {
    if calls != [] {
      var c := calls[0];
      var m' := if Validated(c.source, c.target) then Mipmapper(m.vertexBuffer, Some(c.source.value.format)) else m;
      if Validated(c.source, c.target) {
        RebuildRenderTargetCache(m, c.source, c.target, device, c.generator, c.strength);
      }
      assert Run(m, calls, device).engine == Run(m', calls[1..], device).engine;
      RunCache(m', calls[1..], device);
      LastFormatSplit(calls, m.renderTarget, m'.renderTarget);
    }
  }

  /** Peeling the first call off: its format becomes the starting cache of the rest. */
  lemma {:induction false} LastFormatSplit(calls: seq<Call>, initial: Option<ColorFormat>, next: Option<ColorFormat>)
    requires calls != []
    requires next == if Validated(calls[0].source, calls[0].target) then Some(calls[0].source.value.format) else initial
    ensures LastFormat(calls, initial) == LastFormat(calls[1..], next)
    decreases |calls|
  {
    if |calls| > 1 {
      var last := calls[|calls| - 1];
      if !Validated(last.source, last.target) {
        assert calls[..|calls| - 1][1..] == calls[1..][..|calls[1..]| - 1];
        LastFormatSplit(calls[..|calls| - 1], initial, next);
      }
    }
  }

  /** One step of a run: a validated call contributes its trace and its new state, any other call nothing. */
  lemma RunStep(m: Mipmapper, calls: seq<Call>, device: DeviceType)
    requires calls != []
    ensures var c := calls[0];
      var r := Rebuild(m, c.source, c.target, device, c.generator, c.strength);
      && (Validated(c.source, c.target) ==>
            r.Success? && Run(m, calls, device).trace == r.value.trace + Run(r.value.engine, calls[1..], device).trace)
      && (!Validated(c.source, c.target) ==>
            r.Failure? || r.value == Rebuilt([], m))
      && (!Validated(c.source, c.target) ==> Run(m, calls, device) == Run(m, calls[1..], device))
  {
  }

  /**
   Over any sequence of calls, the graphics context is entered and left
   exactly once per validated call, and never otherwise.
   */
  lemma {:induction false} RunGraphicsBalanced(m: Mipmapper, calls: seq<Call>, device: DeviceType)
    ensures multiset(Run(m, calls, device).trace)[EnterGraphics] == ValidatedCount(calls)
    ensures multiset(Run(m, calls, device).trace)[LeaveGraphics] == ValidatedCount(calls)
    decreases |calls|
  {
    if calls != [] {
      var c := calls[0];
      RunStep(m, calls, device);
      if Validated(c.source, c.target) {
        var r1 := Rebuild(m, c.source, c.target, device, c.generator, c.strength).value;
        var rest := Run(r1.engine, calls[1..], device).trace;
        assert multiset(r1.trace + rest) == multiset(r1.trace) + multiset(rest);
        RebuildGraphicsPaired(m, c.source, c.target, device, c.generator, c.strength);
        RunGraphicsBalanced(r1.engine, calls[1..], device);
      } else {
        RunGraphicsBalanced(m, calls[1..], device);
      }
    }
  }

  /**
   Starting from a freshly constructed instance, every pass of every call
   draws the six vertices of the unit quad.
   */
  lemma {:induction false} RunDrawsUnitQuad(calls: seq<Call>, device: DeviceType)
    ensures forall e :: e in Run(New(), calls, device).trace && e.RenderPass? ==> e.vertices == 6
  {
    RunDrawsBuffer(New(), calls, device);
  }

  /** Every pass of every call draws the instance's whole vertex buffer. */
  lemma {:induction false} RunDrawsBuffer(m: Mipmapper, calls: seq<Call>, device: DeviceType)
    ensures forall e :: e in Run(m, calls, device).trace && e.RenderPass? ==> e.vertices == |m.vertexBuffer|
    decreases |calls|
  {
    if calls != [] {
      var c := calls[0];
      var r := Rebuild(m, c.source, c.target, device, c.generator, c.strength);
      if Validated(c.source, c.target) {
        RebuildRenderTargetCache(m, c.source, c.target, device, c.generator, c.strength);
        RebuildPasses(m, c.source, c.target, device, c.generator, c.strength);
        RunDrawsBuffer(r.value.engine, calls[1..], device);
        forall e | e in r.value.trace && e.RenderPass? ensures e.vertices == |m.vertexBuffer| {
          PassInPasses(r.value.trace, e);
        }
      } else {
        RunDrawsBuffer(m, calls[1..], device);
      }
    }
  }

  /**
   A second validated call reallocates the render target iff its source
   format differs from the first call's.
   */
  lemma FormatChangeReallocates(m: Mipmapper, first: Call, second: Call, device: DeviceType)
    requires Validated(first.source, first.target) && Validated(second.source, second.target)
    ensures var m1 := Rebuild(m, first.source, first.target, device, first.generator, first.strength).value.engine;
      var tr := Rebuild(m1, second.source, second.target, device, second.generator, second.strength).value.trace;
      (CreateRenderTarget(second.source.value.format) in tr
       <==> second.source.value.format != first.source.value.format)
  {
    RebuildRenderTargetCache(m, first.source, first.target, device, first.generator, first.strength);
    var m1 := Rebuild(m, first.source, first.target, device, first.generator, first.strength).value.engine;
    RebuildRenderTargetCache(m1, second.source, second.target, device, second.generator, second.strength);
  }
}
