/**
 * The state `Renderer::Init` derives for each glTF material (renderer.cpp:370-516):
 * the blend state from `alphaMode`, the rasterizer state from `doubleSided`, the
 * texture slots written into the material's constant buffer, and the shader
 * resource and sampler descriptors written into the material's two heaps.
 * Sections 3.9.4 (alpha coverage) and 3.9.5 (double sided) of the glTF 2.0
 * specification give the meaning the derived state is checked against.
 */
module Material {

  import opened Alignment
  import opened Wrappers
  import Sampler

  // ---------------------------------------------------------------------------
  // Blend state

  /** D3D12_BLEND. `Unset` is the zero a value-initialised D3D12_BLEND_DESC holds,
      which names no blend factor. */
  datatype BlendFactor = Unset | Zero | One | SrcAlpha | InvSrcAlpha

  /** D3D12_BLEND_OP, with `UnsetOp` for the zero that names no operation. */
  datatype BlendOp = UnsetOp | Add

  /** D3D12_LOGIC_OP; its zero is D3D12_LOGIC_OP_CLEAR. */
  datatype LogicOp = Clear | Noop

  /** D3D12_COLOR_WRITE_ENABLE_ALL */
  const ColorWriteEnableAll: nat := 15

  /** D3D12_RENDER_TARGET_BLEND_DESC */
  datatype RenderTargetBlend = RenderTargetBlend(
    blendEnable: bool,
    logicOpEnable: bool,
    srcBlend: BlendFactor,
    destBlend: BlendFactor,
    blendOp: BlendOp,
    srcBlendAlpha: BlendFactor,
    destBlendAlpha: BlendFactor,
    blendOpAlpha: BlendOp,
    logicOp: LogicOp,
    writeMask: nat)

  /** D3D12_BLEND_DESC with its first render target; the other seven stay zeroed. */
  datatype BlendDesc = BlendDesc(alphaToCoverage: bool, independentBlend: bool, target0: RenderTargetBlend)

  /** The blend state of a material and whether the unsupported-MASK warning was printed. */
  datatype BlendBuild = BlendBuild(desc: BlendDesc, maskWarning: bool)

  /** The blend state derived from `alphaMode` (renderer.cpp:374-390). */
  function BlendFor(alphaMode: string): (b: BlendBuild)
    ensures b.desc.target0.blendEnable <==> alphaMode == "BLEND"
    ensures b.maskWarning <==> alphaMode == "MASK"
    ensures b.desc.target0.writeMask == ColorWriteEnableAll
    ensures !b.desc.alphaToCoverage && !b.desc.independentBlend && !b.desc.target0.logicOpEnable
  {
    var zero := RenderTargetBlend(false, false, Unset, Unset, UnsetOp, Unset, Unset, UnsetOp, Clear, 0);
    var target :=
      if alphaMode == "BLEND" then
        zero.(blendEnable := true, srcBlend := SrcAlpha, destBlend := InvSrcAlpha, blendOp := Add,
              srcBlendAlpha := One, destBlendAlpha := Zero, blendOpAlpha := Add, logicOp := Noop)
      else zero;
    BlendBuild(BlendDesc(false, false, target.(writeMask := ColorWriteEnableAll)), alphaMode == "MASK")
  }

  /** One colour channel and the alpha of a pixel, in [0, 1]. */
  datatype Pixel = Pixel(color: real, alpha: real)

  function FactorValue(f: BlendFactor, srcAlpha: real): real {
    match f
    case Unset => 0.0
    case Zero => 0.0
    case One => 1.0
    case SrcAlpha => srcAlpha
    case InvSrcAlpha => 1.0 - srcAlpha
  }

  function Combine(op: BlendOp, s: real, d: real): real {
    if op == Add then s + d else 0.0
  }

  /** What the output merger writes for source `src` over destination `dst` with the
      render-target blend state `t`: the source itself when blending is disabled. */
  function OutputMerger(t: RenderTargetBlend, src: Pixel, dst: Pixel): Pixel {
    if !t.blendEnable then src
    else Pixel(
      Combine(t.blendOp, FactorValue(t.srcBlend, src.alpha) * src.color, FactorValue(t.destBlend, src.alpha) * dst.color),
      Combine(t.blendOpAlpha, FactorValue(t.srcBlendAlpha, src.alpha) * src.alpha, FactorValue(t.destBlendAlpha, src.alpha) * dst.alpha))
  }

  /** Alpha mode BLEND composites the source over the destination with the source
      alpha; the written alpha is the source alpha. */
  lemma BlendModeComposites(src: Pixel, dst: Pixel)
    ensures OutputMerger(BlendFor("BLEND").desc.target0, src, dst)
      == Pixel(src.alpha * src.color + (1.0 - src.alpha) * dst.color, src.alpha)
  {
  }

  /** Every other alpha mode, MASK included, writes the source unchanged whatever its
      alpha: the fully opaque rendering glTF prescribes for OPAQUE. MASK's alpha
      cutoff is not applied. */
  lemma OtherModesWriteOpaque(alphaMode: string, src: Pixel, dst: Pixel)
    requires alphaMode != "BLEND"
    ensures OutputMerger(BlendFor(alphaMode).desc.target0, src, dst) == src
    ensures BlendFor(alphaMode).desc == BlendFor("OPAQUE").desc
  {
  }

  // ---------------------------------------------------------------------------
  // Rasterizer state

  /** D3D12_FILL_MODE */
  datatype FillMode = Wireframe | Solid

  /** D3D12_CULL_MODE */
  datatype CullMode = CullNone | CullFront | CullBack

  /** The fields of D3D12_RASTERIZER_DESC this code sets, except the two floating-point
      depth-bias fields it sets to their zero defaults. */
  datatype RasterizerDesc = RasterizerDesc(
    fillMode: FillMode,
    cullMode: CullMode,
    frontCounterClockwise: bool,
    depthBias: int,
    depthClipEnable: bool,
    multisampleEnable: bool,
    antialiasedLineEnable: bool,
    forcedSampleCount: nat,
    conservativeRaster: bool)

  /** The rasterizer state derived from `doubleSided` (renderer.cpp:392-410). */
  function RasterizerFor(doubleSided: bool): (r: RasterizerDesc)
    ensures r.cullMode == CullNone <==> doubleSided
    ensures !doubleSided ==> r.cullMode == CullBack
    ensures r.fillMode == Solid && r.frontCounterClockwise
    ensures r.depthBias == 0 && !r.depthClipEnable && !r.multisampleEnable
    ensures !r.antialiasedLineEnable && r.forcedSampleCount == 0 && !r.conservativeRaster
  {
    RasterizerDesc(Solid, if doubleSided then CullNone else CullBack, true, 0, false, false, false, 0, false)
  }

  /** The winding of a triangle as the rasterizer sees it. */
  datatype Winding = Clockwise | CounterClockwise

  /** Whether the rasterizer draws a triangle of winding `w`. */
  function Drawn(r: RasterizerDesc, w: Winding): bool {
    var front := (w == CounterClockwise) == r.frontCounterClockwise;
    match r.cullMode
    case CullNone => true
    case CullBack => front
    case CullFront => !front
  }

  /** glTF: front faces wind counter-clockwise, and back faces are drawn exactly
      when the material is double sided. */
  function GltfVisible(doubleSided: bool, w: Winding): bool {
    doubleSided || w == CounterClockwise
  }

  /** The rasterizer state draws exactly the faces glTF says are visible. */
  lemma RasterizerMatchesGltf(doubleSided: bool, w: Winding)
    ensures Drawn(RasterizerFor(doubleSided), w) == GltfVisible(doubleSided, w)
  {
  }

  // ---------------------------------------------------------------------------
  // Texture slots and descriptors

  /** A texture reference in the material's constant buffer: -1 for both when absent. */
  datatype TextureSlot = TextureSlot(textureIndex: int, samplerIndex: int)

  const BaseColorSlot: nat := 0
  const MetallicRoughnessSlot: nat := 1

  /** The slot written for a glTF texture reference `gltfIndex` that the shader
      expects in descriptor `slot` (renderer.cpp:469-478, 484-493). */
  function SlotFor(gltfIndex: int, slot: nat): (t: TextureSlot)
    ensures t.textureIndex >= 0 <==> gltfIndex >= 0
    ensures t.textureIndex >= 0 ==> t.textureIndex == slot && t.samplerIndex == slot
    ensures t.textureIndex < 0 ==> t == TextureSlot(-1, -1)
  {
    if gltfIndex >= 0 then TextureSlot(slot, slot) else TextureSlot(-1, -1)
  }

  /** The texture slots of the `PBRMetallicRoughness` constant buffer; the colour and
      metallic/roughness factors are floating point and not modelled. */
  datatype PbrConstants = PbrConstants(baseColorTexture: TextureSlot, metallicRoughnessTexture: TextureSlot)

  /** A glTF texture: its image and sampler, -1 when absent. */
  datatype GltfTexture = GltfTexture(source: int, sampler: int)

  /** The parts of a glTF material this code reads; a texture index is -1 when absent. */
  datatype GltfMaterial = GltfMaterial(
    name: string,
    alphaMode: string,
    doubleSided: bool,
    baseColorTexture: int,
    metallicRoughnessTexture: int)

  /** A texture reference the descriptor code can follow without reading out of
      bounds: absent, or naming a texture whose image and sampler exist. */
  predicate Resolves(index: int, textures: seq<GltfTexture>, imageCount: nat, samplerCount: nat) {
    index < 0 ||
      (index < |textures| && 0 <= textures[index].source < imageCount && 0 <= textures[index].sampler < samplerCount)
  }

  /** The two descriptor heaps of a material, as maps from the byte offset past the
      heap start to what the descriptor there describes. */
  datatype Heaps = Heaps(srv: map<nat, nat>, sampler: map<nat, Sampler.SamplerDesc>)

  /** One `if (index >= 0)` block of renderer.cpp:494-515: a shader resource view of
      the texture's image and a copy of its sampler, at `srvOffset` and `samplerOffset`. */
  function WriteDescriptors(
    heaps: Heaps, srvOffset: nat, samplerOffset: nat, index: int, textures: seq<GltfTexture>,
    images: seq<nat>, samplerDescs: seq<Sampler.SamplerDesc>): (h: Heaps)
    requires Resolves(index, textures, |images|, |samplerDescs|)
    ensures index < 0 ==> h == heaps
    ensures index >= 0 ==> h.srv.Keys == heaps.srv.Keys + {srvOffset} && h.sampler.Keys == heaps.sampler.Keys + {samplerOffset}
    ensures index >= 0 ==> h.srv[srvOffset] == images[textures[index].source]
    ensures index >= 0 ==> h.sampler[samplerOffset] == samplerDescs[textures[index].sampler]
    ensures index >= 0 ==> forall k :: k in heaps.srv && k != srvOffset ==> h.srv[k] == heaps.srv[k]
    ensures index >= 0 ==> forall k :: k in heaps.sampler && k != samplerOffset ==> h.sampler[k] == heaps.sampler[k]
  {
    if index < 0 then heaps
    else
      var texture := textures[index];
      Heaps(heaps.srv[srvOffset := images[texture.source]], heaps.sampler[samplerOffset := samplerDescs[texture.sampler]])
  }

  /** Everything one iteration of the material loop produces; `bufferWidth` is the size
      of the committed constant buffer. */
  datatype MaterialState = MaterialState(
    name: string,
    blend: BlendDesc,
    rasterizer: RasterizerDesc,
    bufferWidth: uint64,
    constants: PbrConstants,
    heaps: Heaps)

  datatype MaterialBuild = MaterialBuild(material: MaterialState, maskWarning: bool)

  /**
   * One iteration of the material loop (renderer.cpp:370-516). `images` are the
   * texture resources `m_textures` holds, `samplerDescs` the translated samplers,
   * `structSize` is `sizeof(PBRMetallicRoughness)` and the increments are the
   * device's descriptor sizes for the two heap types.
   */
  function BuildMaterial(
    m: GltfMaterial, textures: seq<GltfTexture>, images: seq<nat>, samplerDescs: seq<Sampler.SamplerDesc>,
    structSize: uint64, srvIncrement: nat, samplerIncrement: nat): (b: MaterialBuild)
    requires Resolves(m.baseColorTexture, textures, |images|, |samplerDescs|)
    requires Resolves(m.metallicRoughnessTexture, textures, |images|, |samplerDescs|)
    requires structSize + ConstantBufferAlignment - 1 < Two64
    ensures b.material.name == m.name
    ensures b.material.blend == BlendFor(m.alphaMode).desc && b.maskWarning == BlendFor(m.alphaMode).maskWarning
    ensures b.material.rasterizer == RasterizerFor(m.doubleSided)
    ensures IsMultipleOf(b.material.bufferWidth, 256) && structSize <= b.material.bufferWidth < structSize + 256
    ensures b.material.constants.baseColorTexture == SlotFor(m.baseColorTexture, BaseColorSlot)
    ensures b.material.constants.metallicRoughnessTexture == SlotFor(m.metallicRoughnessTexture, MetallicRoughnessSlot)
    ensures b.material.heaps.srv.Keys <= {0, srvIncrement} && b.material.heaps.sampler.Keys <= {0, samplerIncrement}
  {
    var blend := BlendFor(m.alphaMode);
    var constants := PbrConstants(
      SlotFor(m.baseColorTexture, BaseColorSlot),
      SlotFor(m.metallicRoughnessTexture, MetallicRoughnessSlot));
    var start := Heaps(map[], map[]);
    var first := WriteDescriptors(start, 0, 0, m.baseColorTexture, textures, images, samplerDescs);
    var heaps := WriteDescriptors(first, srvIncrement, samplerIncrement, m.metallicRoughnessTexture, textures, images, samplerDescs);
    var material := MaterialState(
      m.name, blend.desc, RasterizerFor(m.doubleSided), MaterialBufferWidth(structSize), constants, heaps);
    MaterialBuild(material, blend.maskWarning)
  }

  /** The texture and sampler the shader finds through a slot: descriptor
      `slot.textureIndex`, one increment per descriptor, or nothing for an absent slot. */
  function BoundTexture(heaps: Heaps, slot: TextureSlot, srvIncrement: nat, samplerIncrement: nat): Option<(nat, Sampler.SamplerDesc)> {
    if slot.textureIndex < 0 || slot.samplerIndex < 0 then None
    else
      var srvOffset := slot.textureIndex * srvIncrement;
      var samplerOffset := slot.samplerIndex * samplerIncrement;
      if srvOffset in heaps.srv && samplerOffset in heaps.sampler then Some((heaps.srv[srvOffset], heaps.sampler[samplerOffset]))
      else None
  }

  /** What a glTF texture reference means: the image and sampler of the texture it names. */
  function Referenced(index: int, textures: seq<GltfTexture>, images: seq<nat>, samplerDescs: seq<Sampler.SamplerDesc>): Option<(nat, Sampler.SamplerDesc)>
    requires Resolves(index, textures, |images|, |samplerDescs|)
  {
    if index < 0 then None else Some((images[textures[index].source], samplerDescs[textures[index].sampler]))
  }

  /** With non-zero descriptor sizes, each slot in the constant buffer leads the shader
      to exactly the image and sampler the glTF material names, and an absent
      texture to nothing. */
  lemma SlotsFindReferencedTextures(
    m: GltfMaterial, textures: seq<GltfTexture>, images: seq<nat>, samplerDescs: seq<Sampler.SamplerDesc>,
    structSize: uint64, srvIncrement: nat, samplerIncrement: nat)
    requires Resolves(m.baseColorTexture, textures, |images|, |samplerDescs|)
    requires Resolves(m.metallicRoughnessTexture, textures, |images|, |samplerDescs|)
    requires structSize + ConstantBufferAlignment - 1 < Two64
    requires srvIncrement > 0 && samplerIncrement > 0
    ensures var mat := BuildMaterial(m, textures, images, samplerDescs, structSize, srvIncrement, samplerIncrement).material;
      && BoundTexture(mat.heaps, mat.constants.baseColorTexture, srvIncrement, samplerIncrement)
         == Referenced(m.baseColorTexture, textures, images, samplerDescs)
      && BoundTexture(mat.heaps, mat.constants.metallicRoughnessTexture, srvIncrement, samplerIncrement)
         == Referenced(m.metallicRoughnessTexture, textures, images, samplerDescs)
  {
    var mat := BuildMaterial(m, textures, images, samplerDescs, structSize, srvIncrement, samplerIncrement).material;
    var first := WriteDescriptors(Heaps(map[], map[]), 0, 0, m.baseColorTexture, textures, images, samplerDescs);
    assert mat.heaps == WriteDescriptors(first, srvIncrement, samplerIncrement, m.metallicRoughnessTexture, textures, images, samplerDescs);
    assert 1 * srvIncrement == srvIncrement && 1 * samplerIncrement == samplerIncrement;
  }
}
