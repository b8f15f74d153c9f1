/**
 * Translation of a glTF 2.0 sampler (section 3.8 of the glTF 2.0 specification)
 * into a D3D12 sampler description, as the sampler loop of `Renderer::Init`
 * does it (renderer.cpp:304-368).
 */
module Sampler {

  // glTF sampler enumerations, with the values tinygltf gives them.
  const Nearest: int := 9728
  const Linear: int := 9729
  const NearestMipmapNearest: int := 9984
  const LinearMipmapNearest: int := 9985
  const NearestMipmapLinear: int := 9986
  const LinearMipmapLinear: int := 9987

  const Repeat: int := 10497
  const ClampToEdge: int := 33071
  const MirroredRepeat: int := 33648

  /** A glTF sampler as tinygltf loads it; an absent filter is -1. */
  datatype GltfSampler = GltfSampler(minFilter: int, magFilter: int, wrapS: int, wrapT: int)

  /** D3D12_FILTER_TYPE: how one of the three stages (minify, magnify, mip) samples. */
  datatype FilterType = Point | Linear

  /** A basic D3D12_FILTER (standard reduction), one filter type per stage. */
  datatype Filter = Filter(min: FilterType, mag: FilterType, mip: FilterType)

  // The D3D12_FILTER enumerators the sampler loop uses.
  const MinMagMipPoint := Filter(Point, Point, Point)
  const MinMagPointMipLinear := Filter(Point, Point, FilterType.Linear)
  const MinPointMagLinearMipPoint := Filter(Point, FilterType.Linear, Point)
  const MinPointMagMipLinear := Filter(Point, FilterType.Linear, FilterType.Linear)
  const MinLinearMagMipPoint := Filter(FilterType.Linear, Point, Point)
  const MinLinearMagPointMipLinear := Filter(FilterType.Linear, Point, FilterType.Linear)
  const MinMagLinearMipPoint := Filter(FilterType.Linear, FilterType.Linear, Point)
  const MinMagMipLinear := Filter(FilterType.Linear, FilterType.Linear, FilterType.Linear)

  /** D3D12_TEXTURE_ADDRESS_MODE values the translation produces. */
  datatype AddressMode = Wrap | Mirror | Clamp

  predicate IsMinFilter(minFilter: int) {
    minFilter in {Nearest, Linear, NearestMipmapNearest, LinearMipmapNearest, NearestMipmapLinear, LinearMipmapLinear}
  }

  predicate IsWrapMode(wrap: int) {
    wrap in {Repeat, ClampToEdge, MirroredRepeat}
  }

  /**
   * The glTF meaning of a recognised filter pair, stage by stage: the minification
   * type is the first word of `minFilter`, the mip type its `MIPMAP_` suffix (point
   * when there is none), and magnification is point exactly for NEAREST.
   */
  function GltfFilter(minFilter: int, magFilter: int): Filter
    requires IsMinFilter(minFilter)
  {
    var min := if minFilter in {Nearest, NearestMipmapNearest, NearestMipmapLinear} then Point else FilterType.Linear;
    var mip := if minFilter in {NearestMipmapLinear, LinearMipmapLinear} then FilterType.Linear else Point;
    var mag := if magFilter == Nearest then Point else FilterType.Linear;
    Filter(min, mag, mip)
  }

  /**
   * The filter switch (renderer.cpp:306-346). It follows the stage-by-stage glTF
   * meaning except for a NEAREST `minFilter` with a `magFilter` other than NEAREST,
   * which it maps to MIN_MAG_MIP_LINEAR; an unrecognised `minFilter` gives
   * MIN_MAG_LINEAR_MIP_POINT whatever the `magFilter`.
   */
  function SamplerFilter(minFilter: int, magFilter: int): (f: Filter)
    ensures IsMinFilter(minFilter) && !(minFilter == Nearest && magFilter != Nearest) ==> f == GltfFilter(minFilter, magFilter)
    ensures minFilter == Nearest && magFilter != Nearest ==> f == MinMagMipLinear && f != GltfFilter(minFilter, magFilter)
    ensures !IsMinFilter(minFilter) ==> f == MinMagLinearMipPoint
  {
    var magNearest := magFilter == Nearest;
    if minFilter == Nearest then
      (if magNearest then MinMagMipPoint else MinMagMipLinear)
    else if minFilter == Linear then
      (if magNearest then MinLinearMagMipPoint else MinMagLinearMipPoint)
    else if minFilter == NearestMipmapNearest then
      (if magNearest then MinMagMipPoint else MinPointMagLinearMipPoint)
    else if minFilter == LinearMipmapNearest then
      (if magNearest then MinLinearMagMipPoint else MinMagLinearMipPoint)
    else if minFilter == NearestMipmapLinear then
      (if magNearest then MinMagPointMipLinear else MinPointMagMipLinear)
    else if minFilter == LinearMipmapLinear then
      (if magNearest then MinLinearMagPointMipLinear else MinMagMipLinear)
    else
      MinMagLinearMipPoint
  }

  /** The filter depends on `magFilter` only through whether it is NEAREST. */
  lemma SamplerFilterSeesOnlyMagNearest(minFilter: int, mag1: int, mag2: int)
    requires (mag1 == Nearest) == (mag2 == Nearest)
    ensures SamplerFilter(minFilter, mag1) == SamplerFilter(minFilter, mag2)
  {
  }

  /** The glTF wrap value that names an address mode. */
  function WrapCode(mode: AddressMode): int {
    match mode
    case Wrap => Repeat
    case Clamp => ClampToEdge
    case Mirror => MirroredRepeat
  }

  /** The outcome of `getTextureAddress`: the mode and whether it printed the
      invalid-wrap-mode warning. */
  datatype Addressing = Addressing(mode: AddressMode, warned: bool)

  /** The `getTextureAddress` lambda (renderer.cpp:348-360). */
  function TextureAddress(wrap: int): (a: Addressing)
    ensures a.warned <==> !IsWrapMode(wrap)
    ensures a.warned ==> a.mode == Wrap
    ensures !a.warned ==> WrapCode(a.mode) == wrap
  {
    if wrap == Repeat then Addressing(Wrap, false)
    else if wrap == ClampToEdge then Addressing(Clamp, false)
    else if wrap == MirroredRepeat then Addressing(Mirror, false)
    else Addressing(Wrap, true)
  }

  /** Every address mode survives the round trip through its glTF wrap value. */
  lemma TextureAddressRoundTrip(mode: AddressMode)
    ensures TextureAddress(WrapCode(mode)) == Addressing(mode, false)
  {
  }

  /** The fields of D3D12_SAMPLER_DESC this code sets or leaves zeroed
      (the comparison function, the border colour and the LOD bias, all left
      zero by the source, are not modelled). */
  datatype SamplerDesc = SamplerDesc(
    filter: Filter,
    addressU: AddressMode,
    addressV: AddressMode,
    addressW: AddressMode,
    maxAnisotropy: nat,
    minLod: int,
    maxLod: int)

  /** A translated sampler and the number of invalid-wrap warnings it printed. */
  datatype SamplerBuild = SamplerBuild(desc: SamplerDesc, warnings: nat)

  /** One iteration of the sampler loop (renderer.cpp:305-365). */
  function TranslateSampler(s: GltfSampler): (b: SamplerBuild)
    ensures b.desc.filter == SamplerFilter(s.minFilter, s.magFilter)
    ensures b.desc.addressU == TextureAddress(s.wrapS).mode
    ensures b.desc.addressV == TextureAddress(s.wrapT).mode
    ensures b.desc.addressW == Wrap && b.desc.maxLod == 256
    ensures b.desc.maxAnisotropy == 0 && b.desc.minLod == 0
    ensures b.warnings == (if IsWrapMode(s.wrapS) then 0 else 1) + (if IsWrapMode(s.wrapT) then 0 else 1)
  {
    var u := TextureAddress(s.wrapS);
    var v := TextureAddress(s.wrapT);
    var desc := SamplerDesc(SamplerFilter(s.minFilter, s.magFilter), u.mode, v.mode, Wrap, 0, 0, 256);
    SamplerBuild(desc, (if u.warned then 1 else 0) + (if v.warned then 1 else 0))
  }
}
