# Mip-chain generator model

A Dafny model of `gs::mipmapper` from StreamFX: the object that fills the
mip levels of a texture by copying the source into level 0 and then, level by
level, resampling the previous level of the target with a chosen kernel into a
scratch render target and copying that into the target's next mip slot.

Every graphics call `rebuild` makes is recorded as an abstract `Graphics.Event`
in a trace, and `rebuild` itself (`Mipmapper.Rebuild`) is a pure function:

- absent source or target: a silent no-op, empty trace, state unchanged;
- a size, type or format mismatch (checked in that order): a `RebuildError`,
  raised before any graphics call;
- otherwise: the trace `EnterGraphics`, `CopyTexture(Target, Source)`, an
  optional `CreateRenderTarget` and the buffer binds, then the mip stage and
  `LeaveGraphics`, together with the generator's new state (its cached
  render-target format). For a Normal source on Direct3D 11 the mip stage
  is one `RenderPass`/`CopyToMip` pair per mip level beyond 0 followed by
  the buffer unbinds, or nothing at all when the target has zero mip levels.
  For a Volume or Cube source, or on OpenGL, it is only the buffer unbinds.

The device type (`OpenGL` or `Direct3D11`) and the target's allocated mip
level count are inputs, since both come from the graphics backend.

Files:

- `wrappers.dfy`: `Option` and `Result`.
- `graphics.dfy`: textures, device types and the trace events.
- `quad.dfy`: the constructor's six-vertex quad.
- `generators.dfy`: kernel selection and its technique names.
- `cascade.dfy`: the per-level halving loop and the closed form of its sizes and events.
- `traces.dfy`: the passes and mip copies of a trace.
- `mipmapper.dfy`: the generator state, the constructor, validation, the
  render-target cache test and `Rebuild`.
- `rebuild_properties.dfy`: what one validated call guarantees.
- `session.dfy`: repeated calls on one generator instance.

Three behaviours of `rebuild` worth noting:

- The halved size is not clamped to 1. `texture_width /= 2` can reach 0
  (`RebuildProperties.RebuildDoesNotClampSize` shows a 256 x 1 texture rendering a 128 x 0 pass).
- Validation failures throw before `obs_enter_graphics`, so the graphics
  context is never acquired for them.
- For a Normal source on Direct3D 11 whose target has zero mip levels, the
  code still copies level 0, recreates the render target if needed and binds
  the vertex buffer. It then leaves the graphics context without unbinding
  the buffers. On OpenGL, or for a Volume or Cube source, the buffers are
  unbound as usual.

## Model

| member | source | states |
|---|---|---|
| Quad.UnitQuad | source/gs-mipmapper.cpp:67-92 | the vertex buffer holds 6 vertices; every coordinate is 0 or 1; each UV equals its position; vertices 1 and 4 are equal, and so are 2 and 3 |
| Quad.UnitQuadCorners | source/gs-mipmapper.cpp:67-92 | the quad's positions are exactly the four corners of the unit square |
| Quad.UnitQuadTriangles | source/gs-mipmapper.cpp:67-92 | each triangle has three distinct corners; the two share the diagonal (1,0)-(0,1); their third vertices are opposite corners, so they tile the square |
| Mipmapper.New | source/gs-mipmapper.cpp:65-99 | a new generator's vertex buffer is the unit quad (6 vertices) and it has no render target |
| Generators.TechniqueName | source/gs-mipmapper.cpp:160-181 | every kernel selects one of the six kernel techniques, never the default "Draw" |
| Generators.GeneratorOf | source/gs-mipmapper.cpp:160-181 | a technique name maps back to a kernel exactly when it is one of the six kernel techniques |
| Generators.TechniqueNameBijective | source/gs-mipmapper.cpp:160-181 | the kernel-to-technique map is injective and onto the six names, with GeneratorOf as its inverse |
| Mipmapper.Validate | source/gs-mipmapper.cpp:121-134 | the reported error is the first failing check: size mismatch, then type mismatch, then format mismatch; no error iff all three agree |
| Mipmapper.NeedsNewRenderTarget | source/gs-mipmapper.cpp:141-147 | the render target is recreated iff none is cached or the cached format differs from the source format |
| Mipmapper.PassTarget | source/gs-mipmapper.cpp:149-152 | the render target used for the passes always has the source's format, whether new or kept |
| Mipmapper.Setup | source/gs-mipmapper.cpp:136-184 | the setup enters graphics, copies level 0, creates a render target (at position 2, only) exactly when one is needed, then binds the quad's vertex buffer and unbinds the index buffer; it renders nothing and copies nothing into mip slots |
| Mipmapper.MipStageShape | source/gs-mipmapper.cpp:186-242 | after the setup come 2 x max(MipLevels-1, 0) events for a Normal source on Direct3D 11 (none otherwise), each equal to the cascade's closed form, followed by the bare leave on the zero-mip-levels early return and by both unbinds and the leave otherwise |
| Mipmapper.RenderShape | source/gs-mipmapper.cpp:136-242 | the graphics section begins with the setup and ends with the leave; its length is the setup's plus two per pass plus one on the early return, three otherwise; afterwards the generator caches a render target of the source's format |
| Mipmapper.Rebuild | source/gs-mipmapper.cpp:101-134 | an absent source or target gives an empty trace and an unchanged generator; with both present, the call fails iff validation fails, and with the validation error |
| MipCascade.LevelSize | source/gs-mipmapper.cpp:208-209 | the working size after some halvings never exceeds the base size, and a positive base size strictly shrinks once it is halved |
| MipCascade.HalvedLevelSize | source/gs-mipmapper.cpp:207-209 | halving the base size once and then taking level k gives level k+1 of the original base size |
| MipCascade.LevelSizeIsDivision | source/gs-mipmapper.cpp:207-209 | the size reached by halving k times, rounding down each time, is the base size divided by 2^k, rounded down |
| MipCascade.Cascade | source/gs-mipmapper.cpp:207-231 | iterations mip .. levels-1 issue 2 events each; event 2j renders level mip-1+j of the target at the entry size halved j+1 times, and event 2j+1 copies that render into slot mip+j |
| Traces.CascadePasses | source/gs-mipmapper.cpp:207-225 | the cascade's passes are levels-mip renders, one per level in increasing order; the pass for level mip-1+i renders at the entry size halved i+1 times |
| Traces.CascadeCopies | source/gs-mipmapper.cpp:227-230 | the cascade copies into slots mip .. levels-1, in that order |
| RebuildProperties.RebuildErrorOrder | source/gs-mipmapper.cpp:121-134 | with both textures present: SizeMismatch iff sizes differ; TypeMismatch iff sizes agree and types differ; FormatMismatch iff size and type agree and formats differ; success iff all agree |
| RebuildProperties.RebuildCopiesLevelZeroFirst | source/gs-mipmapper.cpp:136-139 | a validated call enters graphics, then copies the source into the target, and renders nothing before that |
| RebuildProperties.RebuildPreparesBeforePasses | source/gs-mipmapper.cpp:136-186 | a validated trace begins with the setup; any render-target creation and the quad bind come before every pass |
| RebuildProperties.RebuildRenderTargetCache | source/gs-mipmapper.cpp:141-152 | a render target is created iff none is cached or the cached format differs, always in the source format; afterwards the cache holds the source format; a call with the cached format leaves the generator unchanged |
| RebuildProperties.RebuildGraphicsPaired | source/gs-mipmapper.cpp:136-242 | provided the graphics layer does not throw, a validated call enters and leaves graphics exactly once each, leaving last; the vertex buffer is unbound on every path except the early return for a Normal source on Direct3D 11 with zero mip levels |
| RebuildProperties.RebuildUnbindsBuffers | source/gs-mipmapper.cpp:184-242 | a validated call ends by unbinding the index buffer, then the vertex buffer, then leaving, and clears the index buffer twice; on the zero-mip-levels early return it ends with the quad bind, the setup's index-buffer clear and the leave, so the index buffer is cleared only once |
| RebuildProperties.RebuildPasses | source/gs-mipmapper.cpp:186-237 | there are max(MipLevels-1, 0) passes for a Normal texture on Direct3D 11 and none otherwise; pass i samples level i of the target at W and H halved i+1 times (W / 2^(i+1) by H / 2^(i+1) by LevelSizeIsDivision), with the kernel's technique, into a source-format render target, drawing the whole vertex buffer; the copies go to slots 1 .. MipLevels-1 in order |
| RebuildProperties.RebuildCopyFollowsPass | source/gs-mipmapper.cpp:207-231 | every pass is immediately followed by the copy into the next mip slot, and every mip copy immediately follows the pass that produced it |
| RebuildProperties.RebuildDoesNotClampSize | source/gs-mipmapper.cpp:207-209 | a 256 x 1 texture with 9 levels gets 8 passes, the first rendering 128 x 0: sizes are not clamped to 1 |
| Session.RunCache | source/gs-mipmapper.cpp:141-152 | over any sequence of calls the vertex buffer never changes, and the cached render target has the source format of the last validated call |
| Session.RunGraphicsBalanced | source/gs-mipmapper.cpp:136-242 | provided the graphics layer does not throw, over any sequence of calls, enters and leaves of the graphics context each equal the number of validated calls |
| Session.RunDrawsUnitQuad | source/gs-mipmapper.cpp:222-224 | starting from a new generator, every pass of every call draws exactly the quad's 6 vertices |
| Session.FormatChangeReallocates | source/gs-mipmapper.cpp:141-152 | a second validated call reallocates the render target iff its source format differs from the first call's |

## Left out

- Direct3D 11 internals: the reflection of `gs_d3d11_device`, `GetDesc` and `CopySubresourceRegion` are foreign calls. The target's `MipLevels` becomes a texture field, and the subresource copy becomes a `CopyToMip` event.
- The model assumes a Windows build. Elsewhere the Direct3D 11 branch is compiled out, and the device is never Direct3D 11 anyway.
- The OpenGL branch is empty in the code, so OpenGL yields no passes.
- Effect execution: parameter binding, `gs_effect_loop` and the pixel resampling run on the GPU. One draw loop is one `RenderPass` event.
- Texel-size arithmetic (`1.0 / width`, `*= 2`) is floating point and is left out. `strength` is passed through unchanged as a `real`.
- Effect file loading (`obs_module_file`, `bfree`) and the vertex-buffer upload (`update`) are I/O and library wrappers.
- The destructor only releases owned resources, so there is no logic to model.
- `obs_enter_graphics`/`obs_leave_graphics` are kept only as paired events. They have no lock semantics.
- Failures raised by the graphics layer inside the graphics section are not modelled; they come from code outside this model. Examples are the render-target allocation (line 151) and `renderTarget->render` (line 215). Nothing guards the span from line 136 to line 242, so such a throw skips `obs_leave_graphics`. The enter/leave pairing proved by `RebuildGraphicsPaired` and `RunGraphicsBalanced` therefore holds only for calls in which the graphics layer does not throw.
- Queries that issue no graphics work (`gs_get_context`, `gs_texture_get_obj`, `gs_get_device_type`) produce no events.
- The exception message strings are not modelled. Each error is identified by its kind.
- Colour-format and texture-type enumerations come from headers that are not part of this model. Formats are opaque codes, and the types are Normal, Volume and Cube.
- RebuildProperties.RebuildGraphicsPaired: enter/leave pairing is proved only for calls in which the graphics layer does not throw. Nothing guards lines 136-242, and failures inside that span are not modelled.
- Session.RunGraphicsBalanced: same restriction as `RebuildGraphicsPaired`. A call that throws inside the graphics section would leave the context entered.
