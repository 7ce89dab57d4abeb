/**
 What one call of `rebuild` guarantees about the graphics calls it issues
 and the state it leaves behind.
 */
module RebuildProperties {

  import opened Wrappers
  import opened Graphics
  import opened Generators
  import opened MipCascade
  import opened Traces
  import opened Mipmapper

  /** Both textures are present and agree in size, type and format. */
  predicate Validated(source: Option<Texture>, target: Option<Texture>) {
    source.Some? && target.Some? && Validate(source.value, target.value) == None
  }

  /** Validation failures win in the order size, type, format, and issue no graphics call. */
  lemma RebuildErrorOrder(m: Mipmapper, source: Texture, target: Texture, device: DeviceType,
                          generator: Generator, strength: real)
    ensures var r := Rebuild(m, Some(source), Some(target), device, generator, strength);
      && (r == Failure(SizeMismatch) <==> (source.width, source.height) != (target.width, target.height))
      && (r == Failure(TypeMismatch) <==>
            (source.width, source.height) == (target.width, target.height) && source.kind != target.kind)
      && (r == Failure(FormatMismatch) <==>
            (source.width, source.height, source.kind) == (target.width, target.height, target.kind)
            && source.format != target.format)
      && (r.Success? <==> Validate(source, target) == None)
  {
  }

  /** A validated call enters the graphics context, then copies level 0, before any render pass. */
  lemma RebuildCopiesLevelZeroFirst(m: Mipmapper, source: Option<Texture>, target: Option<Texture>,
                                    device: DeviceType, generator: Generator, strength: real)
    requires Validated(source, target)
    ensures var tr := Rebuild(m, source, target, device, generator, strength).value.trace;
      && |tr| >= 2 && tr[0] == EnterGraphics && tr[1] == CopyTexture(Target, Source)
      && forall i :: 0 <= i < |tr| && tr[i].RenderPass? ==> i >= |Setup(m, source.value)| > 1
  {
  }

  /**
   A validated call opens with the setup: everything before the first pass is
   the enter, the level-0 copy, the render-target creation when one is needed,
   the quad's vertex buffer bind and the index buffer unbind. So the render
   target exists and the quad is bound before any pass draws.
   */
  lemma RebuildPreparesBeforePasses(m: Mipmapper, source: Option<Texture>, target: Option<Texture>,
                                    device: DeviceType, generator: Generator, strength: real)
    requires Validated(source, target)
    ensures var tr := Rebuild(m, source, target, device, generator, strength).value.trace;
      var n := |Setup(m, source.value)|;
      && n <= |tr| && tr[..n] == Setup(m, source.value)
      && tr[n - 2] == LoadVertexBuffer(|m.vertexBuffer|) && tr[n - 1] == ClearIndexBuffer
      && (forall i :: 0 <= i < |tr| && tr[i].RenderPass? ==> i >= n)
      && (forall k :: 0 <= k < |tr| && tr[k].CreateRenderTarget? ==> k == 2 && k < n)
  {
    var s, t := source.value, target.value;
    var setup, stage := Setup(m, s), MipStage(m, s, t, device, generator, strength);
    assert Rebuild(m, source, target, device, generator, strength).value.trace == setup + stage;
    StageEvents(m, s, t, device, generator, strength);
    SetupThenStage(setup, stage);
  }

  /** A setup-shaped prefix keeps its place ahead of a stage that creates no render target. */
  lemma SetupThenStage(setup: seq<Event>, stage: seq<Event>)
    requires NoMipWork(setup)
    requires forall i :: 0 <= i < |setup| && setup[i].CreateRenderTarget? ==> i == 2
    requires forall e :: e in stage ==> !e.CreateRenderTarget?
    ensures var tr := setup + stage;
      && tr[..|setup|] == setup
      && (forall i :: 0 <= i < |tr| && tr[i].RenderPass? ==> i >= |setup|)
      && (forall k :: 0 <= k < |tr| && tr[k].CreateRenderTarget? ==> k == 2 && k < |setup|)
  {
    var tr, n := setup + stage, |setup|;
    assert tr[..n] == setup;
    forall i | 0 <= i < |tr| && (tr[i].RenderPass? || tr[i].CreateRenderTarget?)
      ensures tr[i].RenderPass? ==> i >= n
      ensures tr[i].CreateRenderTarget? ==> i == 2 && i < n
    {
      if i < n {
        assert tr[i] == setup[i];
      } else {
        assert tr[i] == stage[i - n] && tr[i] in stage;
      }
    }
  }

  /**
   The render target is recreated iff none is cached or the cached one has
   another format; afterwards the cache holds the source's format, and a call
   with the cached format leaves the generator unchanged.
   */
  lemma RebuildRenderTargetCache(m: Mipmapper, source: Option<Texture>, target: Option<Texture>,
                                 device: DeviceType, generator: Generator, strength: real)
    requires Validated(source, target)
    ensures var r := Rebuild(m, source, target, device, generator, strength).value;
      && r.engine == Mipmapper(m.vertexBuffer, Some(source.value.format))
      && (m.renderTarget == Some(source.value.format) ==> r.engine == m)
      && (CreateRenderTarget(source.value.format) in r.trace <==> m.renderTarget != Some(source.value.format))
      && (forall e :: e in r.trace && e.CreateRenderTarget? ==> e == CreateRenderTarget(source.value.format))
  {
    var s, t := source.value, target.value;
    var setup, stage := Setup(m, s), MipStage(m, s, t, device, generator, strength);
    var tr := setup + stage;
    assert Rebuild(m, source, target, device, generator, strength).value.trace == tr;
    assert forall e :: e in stage ==> !e.CreateRenderTarget? by {
      StageEvents(m, s, t, device, generator, strength);
    }
    if m.renderTarget == Some(s.format) {
      assert setup == [EnterGraphics, CopyTexture(Target, Source), LoadVertexBuffer(|m.vertexBuffer|), ClearIndexBuffer];
    } else {
      assert setup[2] == CreateRenderTarget(s.format);
    }
  }

  /** Every event of the mip stage is a pass, a copy into a mip slot, a buffer unbind or the leave. */
  lemma StageEvents(m: Mipmapper, source: Texture, target: Texture, device: DeviceType,
                    generator: Generator, strength: real)
    ensures forall e :: e in MipStage(m, source, target, device, generator, strength) ==>
      e.RenderPass? || e.CopyToMip? || e in Teardown
  {
  }

  /**
   Every validated call enters the graphics context exactly once and leaves
   it exactly once, as its last action. The vertex buffer is unbound on every
   path except the early return for a target without mip levels.
   */
  lemma RebuildGraphicsPaired(m: Mipmapper, source: Option<Texture>, target: Option<Texture>,
                              device: DeviceType, generator: Generator, strength: real)
    requires Validated(source, target)
    ensures var tr := Rebuild(m, source, target, device, generator, strength).value.trace;
      && multiset(tr)[EnterGraphics] == 1
      && multiset(tr)[LeaveGraphics] == 1
      && tr[|tr| - 1] == LeaveGraphics
      && (ClearVertexBuffer in tr <==> !(CascadeRuns(source.value, device) && target.value.mipLevels == 0))
  {
    var setup, stage := GraphicsParts(m, source, target, device, generator, strength);
    ScopedSplit(setup, stage, CascadeRuns(source.value, device) && target.value.mipLevels == 0);
  }

  /**
   A validated call ends by unbinding the index buffer, then the vertex
   buffer, then leaving, so the index buffer is cleared twice (once by the
   setup). The early return for a target without mip levels instead ends
   right after the setup: the quad is bound, the index buffer cleared once,
   and the context left with nothing unbound.
   */
  lemma RebuildUnbindsBuffers(m: Mipmapper, source: Option<Texture>, target: Option<Texture>,
                              device: DeviceType, generator: Generator, strength: real)
    requires Validated(source, target)
    ensures var tr := Rebuild(m, source, target, device, generator, strength).value.trace;
      var early := CascadeRuns(source.value, device) && target.value.mipLevels == 0;
      && multiset(tr)[ClearIndexBuffer] == (if early then 1 else 2)
      && |tr| >= 3
      && (early ==> tr[|tr| - 3..] == [LoadVertexBuffer(|m.vertexBuffer|), ClearIndexBuffer, LeaveGraphics])
      && (!early ==> tr[|tr| - 3..] == Teardown)
  {
    var early := CascadeRuns(source.value, device) && target.value.mipLevels == 0;
    var setup, stage := GraphicsParts(m, source, target, device, generator, strength);
    ScopedTail(setup, stage, |m.vertexBuffer|, early);
  }

  /** A validated call's trace, split into its setup and its mip stage, with what each part does. */
  lemma GraphicsParts(m: Mipmapper, source: Option<Texture>, target: Option<Texture>,
                      device: DeviceType, generator: Generator, strength: real)
    returns (setup: seq<Event>, stage: seq<Event>)
    requires Validated(source, target)
    ensures Rebuild(m, source, target, device, generator, strength).value.trace == setup + stage
    ensures multiset(setup)[EnterGraphics] == 1 && multiset(setup)[LeaveGraphics] == 0
    ensures ClearVertexBuffer !in setup && multiset(setup)[ClearIndexBuffer] == 1
    ensures |setup| >= 2 && setup[|setup| - 2..] == [LoadVertexBuffer(|m.vertexBuffer|), ClearIndexBuffer]
    ensures var early := CascadeRuns(source.value, device) && target.value.mipLevels == 0;
      && multiset(stage)[EnterGraphics] == 0 && multiset(stage)[LeaveGraphics] == 1
      && |stage| > 0 && stage[|stage| - 1] == LeaveGraphics
      && (ClearVertexBuffer in stage <==> !early)
      && multiset(stage)[ClearIndexBuffer] == (if early then 0 else 1)
      && (early ==> stage == [LeaveGraphics])
      && (!early ==> |stage| >= 3 && stage[|stage| - 3..] == Teardown)
  {
    var s, t := source.value, target.value;
    setup, stage := Setup(m, s), MipStage(m, s, t, device, generator, strength);
    assert Rebuild(m, source, target, device, generator, strength).value.trace == setup + stage;
    assert setup[|setup| - 2..] == [setup[|setup| - 2], setup[|setup| - 1]];
    SetupCounts(m, s);
    StageCounts(m, s, t, device, generator, strength);
  }

  /** An opening part that enters once and a closing part that leaves once, last, form one scope. */
  lemma ScopedSplit(setup: seq<Event>, stage: seq<Event>, early: bool)
    requires multiset(setup)[EnterGraphics] == 1 && multiset(setup)[LeaveGraphics] == 0
    requires ClearVertexBuffer !in setup
    requires multiset(stage)[EnterGraphics] == 0 && multiset(stage)[LeaveGraphics] == 1
    requires |stage| > 0 && stage[|stage| - 1] == LeaveGraphics
    requires ClearVertexBuffer in stage <==> !early
    ensures var tr := setup + stage;
      && multiset(tr)[EnterGraphics] == 1
      && multiset(tr)[LeaveGraphics] == 1
      && tr[|tr| - 1] == LeaveGraphics
      && (ClearVertexBuffer in tr <==> !early)
  {
    var tr := setup + stage;
    assert multiset(tr) == multiset(setup) + multiset(stage);
    assert tr[|tr| - 1] == stage[|stage| - 1];
  }

  /**
   The last three events of an opening part that ends by binding `vertices`
   vertices and clearing the index buffer, followed by a closing part that is
   either the bare leave or ends with the teardown.
   */
  lemma ScopedTail(setup: seq<Event>, stage: seq<Event>, vertices: nat, early: bool)
    requires |setup| >= 2 && setup[|setup| - 2..] == [LoadVertexBuffer(vertices), ClearIndexBuffer]
    requires multiset(setup)[ClearIndexBuffer] == 1
    requires multiset(stage)[ClearIndexBuffer] == (if early then 0 else 1)
    requires early ==> stage == [LeaveGraphics]
    requires !early ==> |stage| >= 3 && stage[|stage| - 3..] == Teardown
    ensures var tr := setup + stage;
      && multiset(tr)[ClearIndexBuffer] == (if early then 1 else 2)
      && |tr| >= 3
      && (early ==> tr[|tr| - 3..] == [LoadVertexBuffer(vertices), ClearIndexBuffer, LeaveGraphics])
      && (!early ==> tr[|tr| - 3..] == Teardown)
  {
    var tr := setup + stage;
    assert multiset(tr) == multiset(setup) + multiset(stage);
    var n := |tr|;
    if early {
      assert tr[n - 3] == setup[|setup| - 2] && tr[n - 2] == setup[|setup| - 1];
    } else {
      assert tr[n - 3] == stage[|stage| - 3] && tr[n - 2] == stage[|stage| - 2] && tr[n - 1] == stage[|stage| - 1];
      assert stage[|stage| - 3..] == [stage[|stage| - 3], stage[|stage| - 2], stage[|stage| - 1]];
    }
    assert tr[n - 3..] == [tr[n - 3], tr[n - 2], tr[n - 1]];
  }

  /** The setup enters once, leaves never, clears the index buffer once and does not unbind the vertex buffer. */
  lemma SetupCounts(m: Mipmapper, source: Texture)
    ensures multiset(Setup(m, source))[EnterGraphics] == 1
    ensures multiset(Setup(m, source))[LeaveGraphics] == 0
    ensures ClearVertexBuffer !in Setup(m, source)
    ensures multiset(Setup(m, source))[ClearIndexBuffer] == 1
  {
    var mid := if NeedsNewRenderTarget(m.renderTarget, source.format) then [CreateRenderTarget(source.format)] else [];
    assert Setup(m, source) == [EnterGraphics, CopyTexture(Target, Source)] + mid
                               + [LoadVertexBuffer(|m.vertexBuffer|), ClearIndexBuffer];
    FramedCreation(mid, |m.vertexBuffer|);
  }

  /** Entering, copying, any render-target creations, then binding and clearing: one enter, one clear, no leave. */
  lemma FramedCreation(mid: seq<Event>, vertices: nat)
    requires forall e :: e in mid ==> e.CreateRenderTarget?
    ensures var setup := [EnterGraphics, CopyTexture(Target, Source)] + mid
                         + [LoadVertexBuffer(vertices), ClearIndexBuffer];
      && multiset(setup)[EnterGraphics] == 1
      && multiset(setup)[LeaveGraphics] == 0
      && ClearVertexBuffer !in setup
      && multiset(setup)[ClearIndexBuffer] == 1
  {
    var head, tail := [EnterGraphics, CopyTexture(Target, Source)], [LoadVertexBuffer(vertices), ClearIndexBuffer];
    var setup := head + mid + tail;
    assert multiset(setup) == multiset(head) + multiset(mid) + multiset(tail);
    assert EnterGraphics !in mid && LeaveGraphics !in mid && ClearIndexBuffer !in mid && ClearVertexBuffer !in mid;
    assert multiset(mid)[EnterGraphics] == 0 && multiset(mid)[LeaveGraphics] == 0;
    assert multiset(mid)[ClearVertexBuffer] == 0 && multiset(mid)[ClearIndexBuffer] == 0;
    assert multiset(setup)[ClearVertexBuffer] == 0;
  }

  /**
   The mip stage never enters, leaves once, and ends with both buffer unbinds
   and the leave except on the early return, where it only leaves.
   */
  lemma StageCounts(m: Mipmapper, source: Texture, target: Texture, device: DeviceType,
                    generator: Generator, strength: real)
    ensures var stage := MipStage(m, source, target, device, generator, strength);
      var early := CascadeRuns(source, device) && target.mipLevels == 0;
      && multiset(stage)[EnterGraphics] == 0
      && multiset(stage)[LeaveGraphics] == 1
      && |stage| > 0 && stage[|stage| - 1] == LeaveGraphics
      && (ClearVertexBuffer in stage <==> !early)
      && multiset(stage)[ClearIndexBuffer] == (if early then 0 else 1)
      && (early ==> stage == [LeaveGraphics])
      && (!early ==> |stage| >= 3 && stage[|stage| - 3..] == Teardown)
  {
    if CascadeRuns(source, device) && target.mipLevels > 0 {
      var c := Cascade(1, target.mipLevels, source.width, source.height, TechniqueName(generator), strength,
                       PassTarget(m, source), |m.vertexBuffer|);
      forall e | e in c ensures e.RenderPass? || e.CopyToMip? {
        var i :| 0 <= i < |c| && c[i] == e;
      }
      WorkThenTeardown(c);
    } else if !CascadeRuns(source, device) {
      WorkThenTeardown([]);
      assert [] + Teardown == Teardown;
    }
  }

  /** Passes and copies followed by the teardown: one leave, last, and one unbind of each buffer, at the end. */
  lemma WorkThenTeardown(work: seq<Event>)
    requires forall e :: e in work ==> e.RenderPass? || e.CopyToMip?
    ensures var stage := work + Teardown;
      && multiset(stage)[EnterGraphics] == 0
      && multiset(stage)[LeaveGraphics] == 1
      && |stage| >= 3 && stage[|stage| - 1] == LeaveGraphics
      && ClearVertexBuffer in stage
      && multiset(stage)[ClearIndexBuffer] == 1
      && stage[|stage| - 3..] == Teardown
  {
    var stage := work + Teardown;
    assert multiset(stage) == multiset(work) + multiset(Teardown);
    assert EnterGraphics !in work && LeaveGraphics !in work && ClearIndexBuffer !in work;
    assert multiset(work)[EnterGraphics] == 0 && multiset(work)[LeaveGraphics] == 0;
    assert multiset(work)[ClearIndexBuffer] == 0;
    assert stage[|work|..] == Teardown;
  }

  /**
   A validated call renders one pass per mip level beyond 0 when the cascade
   runs (none otherwise), in increasing level order. Pass `i` samples level
   `i` of the target with the kernel's technique (never the default one),
   renders at the source size divided by 2^(i+1) into a render target of the
   source's format, draws the whole vertex buffer, and is copied into mip
   slot `i + 1`.
   */
  lemma RebuildPasses(m: Mipmapper, source: Option<Texture>, target: Option<Texture>,
                      device: DeviceType, generator: Generator, strength: real)
    requires Validated(source, target)
    ensures var tr := Rebuild(m, source, target, device, generator, strength).value.trace;
      var s := source.value;
      var ps := Passes(tr);
      && |ps| == PassCount(s, target.value, device)
      && (forall i :: 0 <= i < |ps| ==>
            ps[i] == RenderPass(LevelSize(s.width, i + 1), LevelSize(s.height, i + 1), Target, i,
                                TechniqueName(generator), strength, s.format, |m.vertexBuffer|))
      && (forall i :: 0 <= i < |ps| ==> ps[i].technique != DefaultTechnique)
      && MipCopies(tr) == seq(PassCount(s, target.value, device), i => i + 1)
  {
    var s, t := source.value, target.value;
    var setup, stage := Setup(m, s), MipStage(m, s, t, device, generator, strength);
    var tr := setup + stage;
    assert Rebuild(m, source, target, device, generator, strength).value.trace == tr;
    PassesAppend(setup, stage);
    NoMipWorkIsEmpty(setup);
    assert Passes(tr) == Passes(stage) && MipCopies(tr) == MipCopies(stage);
    StagePasses(m, s, t, device, generator, strength);
  }

  /** The passes and mip copies of the mip stage; see `RebuildPasses`. */
  lemma StagePasses(m: Mipmapper, s: Texture, t: Texture, device: DeviceType, generator: Generator, strength: real)
    ensures var stage := MipStage(m, s, t, device, generator, strength);
      var ps := Passes(stage);
      && |ps| == PassCount(s, t, device)
      && (forall i :: 0 <= i < |ps| ==>
            ps[i] == RenderPass(LevelSize(s.width, i + 1), LevelSize(s.height, i + 1), Target, i,
                                TechniqueName(generator), strength, s.format, |m.vertexBuffer|))
      && MipCopies(stage) == seq(PassCount(s, t, device), i => i + 1)
  {
    var stage := MipStage(m, s, t, device, generator, strength);
    if CascadeRuns(s, device) && t.mipLevels > 0 {
      CascadeThenTeardown(t.mipLevels, s.width, s.height, TechniqueName(generator), strength,
                          PassTarget(m, s), |m.vertexBuffer|);
    } else {
      NoMipWorkIsEmpty(stage);
    }
  }

  /** The passes and copies of the cascade followed by the teardown, counted from the first iteration. */
  lemma CascadeThenTeardown(levels: nat, width: nat, height: nat, technique: string,
                            strength: real, into: ColorFormat, vertices: nat)
    requires levels > 0
    ensures var tr := Cascade(1, levels, width, height, technique, strength, into, vertices) + Teardown;
      var ps := Passes(tr);
      && |ps| == levels - 1
      && (forall i :: 0 <= i < |ps| ==>
            ps[i] == RenderPass(LevelSize(width, i + 1), LevelSize(height, i + 1), Target, i,
                                technique, strength, into, vertices))
      && MipCopies(tr) == seq(levels - 1, i => i + 1)
  {
    var c := Cascade(1, levels, width, height, technique, strength, into, vertices);
    PassesAppend(c, Teardown);
    NoMipWorkIsEmpty(Teardown);
    assert Passes(c + Teardown) == Passes(c) && MipCopies(c + Teardown) == MipCopies(c);
    CascadePasses(1, levels, width, height, technique, strength, into, vertices);
    CascadeCopies(1, levels, width, height, technique, strength, into, vertices);
  }

  /** Every pass in `tr` is directly followed by the copy of its output into the next mip slot, and every such copy directly follows its pass. */
  predicate PassThenCopy(tr: seq<Event>) {
    && (forall i :: 0 <= i < |tr| && tr[i].RenderPass? ==> i + 1 < |tr| && tr[i + 1] == CopyToMip(tr[i].level + 1))
    && (forall i :: 0 <= i < |tr| && tr[i].CopyToMip? ==>
          i > 0 && tr[i - 1].RenderPass? && tr[i - 1].level + 1 == tr[i].mip)
  }

  /** In the cascade every pass is directly followed by the copy of what it rendered into the next mip slot. */
  lemma CascadeAdjacent(levels: nat, width: nat, height: nat, technique: string,
                        strength: real, into: ColorFormat, vertices: nat)
    ensures PassThenCopy(Cascade(1, levels, width, height, technique, strength, into, vertices))
  {
    var c := Cascade(1, levels, width, height, technique, strength, into, vertices);
    forall i | 0 <= i < |c| && c[i].RenderPass?
      ensures i + 1 < |c| && c[i + 1] == CopyToMip(c[i].level + 1)
    {
      var k := i / 2;
      assert c[i] == CascadeEvent(1, i, width, height, technique, strength, into, vertices);
      assert i % 2 == 0;
      assert i == 2 * k && |c| == 2 * (levels - 1);
      assert (i + 1) / 2 == k && (i + 1) % 2 == 1;
      assert c[i + 1] == CascadeEvent(1, i + 1, width, height, technique, strength, into, vertices);
    }
    forall i | 0 <= i < |c| && c[i].CopyToMip?
      ensures i > 0 && c[i - 1].RenderPass? && c[i - 1].level + 1 == c[i].mip
    {
      var k := i / 2;
      assert c[i] == CascadeEvent(1, i, width, height, technique, strength, into, vertices);
      assert i % 2 == 1;
      assert i == 2 * k + 1;
      assert (i - 1) / 2 == k && (i - 1) % 2 == 0;
      assert c[i - 1] == CascadeEvent(1, i - 1, width, height, technique, strength, into, vertices);
    }
  }

  /** Surrounding a trace with events that neither render nor copy keeps passes and copies adjacent. */
  lemma FramedPassThenCopy(a: seq<Event>, c: seq<Event>, b: seq<Event>)
    requires NoMipWork(a) && PassThenCopy(c) && NoMipWork(b)
    ensures PassThenCopy(a + c + b)
  {
    var tr, n := a + c + b, |a|;
    forall i | 0 <= i < |tr| && (tr[i].RenderPass? || tr[i].CopyToMip?)
      ensures n <= i < n + |c| && tr[i] == c[i - n]
    {
    }
    forall i | 0 <= i < |tr| && tr[i].RenderPass?
      ensures i + 1 < |tr| && tr[i + 1] == CopyToMip(tr[i].level + 1)
    {
      assert tr[i + 1] == c[i + 1 - n];
    }
    forall i | 0 <= i < |tr| && tr[i].CopyToMip?
      ensures i > 0 && tr[i - 1].RenderPass? && tr[i - 1].level + 1 == tr[i].mip
    {
      assert tr[i - 1] == c[i - 1 - n];
    }
  }

  /**
   In a validated call every copy into a mip slot directly follows the pass
   that rendered the level above it, and every pass is directly followed by
   that copy: the render target is never copied stale or left uncopied.
   */
  lemma RebuildCopyFollowsPass(m: Mipmapper, source: Option<Texture>, target: Option<Texture>,
                               device: DeviceType, generator: Generator, strength: real)
    requires Validated(source, target)
    ensures PassThenCopy(Rebuild(m, source, target, device, generator, strength).value.trace)
  {
    var s, t := source.value, target.value;
    var setup, stage := Setup(m, s), MipStage(m, s, t, device, generator, strength);
    assert Rebuild(m, source, target, device, generator, strength).value.trace == setup + stage;
    if CascadeRuns(s, device) && t.mipLevels > 0 {
      var c := Cascade(1, t.mipLevels, s.width, s.height, TechniqueName(generator), strength,
                       PassTarget(m, s), |m.vertexBuffer|);
      assert setup + stage == setup + c + Teardown;
      CascadeAdjacent(t.mipLevels, s.width, s.height, TechniqueName(generator), strength,
                      PassTarget(m, s), |m.vertexBuffer|);
      FramedPassThenCopy(setup, c, Teardown);
    } else {
      assert setup + stage == setup + [] + stage;
      FramedPassThenCopy(setup, [], stage);
    }
  }

  /**
   The working size is halved without a floor of 1: for a 256 x 1 texture
   with 9 mip levels on Direct3D 11, the very first pass renders 128 x 0.
   */
  lemma RebuildDoesNotClampSize(m: Mipmapper)
    ensures var t := Texture(256, 1, Normal, 0, 9);
      var ps := Passes(Rebuild(m, Some(t), Some(t), Direct3D11).value.trace);
      |ps| == 8 && ps[0].width == 128 && ps[0].height == 0 && ps[7].width == 1
  {
    var t := Texture(256, 1, Normal, 0, 9);
    RebuildPasses(m, Some(t), Some(t), Direct3D11, Linear, 1.0);
    assert Pow2(1) == 2;
    assert Pow2(8) == 256;
  }
}
