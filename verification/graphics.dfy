/**
 The slice of the host graphics layer that the mip-map generator touches:
 textures as the generator sees them, the active device family, and the
 graphics calls it issues, recorded as abstract events of a trace.
 */
module Graphics {

  /** Dimensionality of a texture object (`gs::texture::type`). */
  datatype TextureType = Normal | Volume | Cube

  /** A colour format, identified by its `gs_color_format` enumerator value. */
  type ColorFormat = nat

  /** The graphics API family reported by `gs_get_device_type`. */
  datatype DeviceType = OpenGL | Direct3D11

  /**
   A texture as seen by the generator. `mipLevels` is the number of mip
   levels the backend allocated for it (the `MipLevels` field of the
   Direct3D 11 texture description); it is only consulted for the target.
   */
  datatype Texture = Texture(
    width: nat,
    height: nat,
    kind: TextureType,
    format: ColorFormat,
    mipLevels: nat)

  /** Which of the two caller textures an event refers to. */
  datatype TextureRole = Source | Target

  /**
   One graphics call of the generator, in the order it is issued.
   - `EnterGraphics` / `LeaveGraphics`: acquiring and releasing the graphics context.
   - `CopyTexture(dst, src)`: a whole-texture copy (level 0).
   - `CreateRenderTarget(format)`: the scratch render target is allocated anew.
   - `LoadVertexBuffer(vertices)`: the quad's vertex buffer is bound; `vertices` is its size.
   - `ClearVertexBuffer` / `ClearIndexBuffer`: a null buffer is bound.
   - `RenderPass(...)`: one downsampling draw into the scratch render target of
     size `width` x `height` and format `into`, sampling `image` at mip `level`
     with technique `technique`, drawing `vertices` vertices as triangles.
   - `CopyToMip(level)`: the scratch render target is copied into subresource
     `level` of the target texture.
   */
  datatype Event =
    | EnterGraphics
    | LeaveGraphics
    | CopyTexture(dst: TextureRole, src: TextureRole)
    | CreateRenderTarget(format: ColorFormat)
    | LoadVertexBuffer(vertices: nat)
    | ClearVertexBuffer
    | ClearIndexBuffer
    | RenderPass(width: nat, height: nat, image: TextureRole, level: nat,
                 technique: string, strength: real, into: ColorFormat, vertices: nat)
    | CopyToMip(mip: nat)
}
