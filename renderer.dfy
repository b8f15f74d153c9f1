/**
 * The `Renderer` of RenderLab (include/renderer.h, source/renderer.cpp) as the
 * bookkeeping it keeps: the resource tables `Init` fills from a glTF document, the
 * copy and direct fences with their counters, and the back-buffer index `Render`
 * draws into. The buffers and textures the upload loops create, and their upload
 * buffers, are resource numbers in creation order; other Direct3D 12 objects are
 * not modelled.
 */
module RenderLab {

  import opened Wrappers
  import opened Alignment
  import opened Fence
  import opened TextureUpload
  import Sampler
  import Material
  import ModulePath
  import Adapter

  /** `Renderer::FrameCount`: the swap chain's back buffers. */
  const FrameCount: nat := 2

  /** The parts of a tinygltf model `Init` reads. */
  datatype Document = Document(
    buffers: seq<seq<byte>>,
    images: seq<Image>,
    textures: seq<Material.GltfTexture>,
    samplers: seq<Sampler.GltfSampler>,
    materials: seq<Material.GltfMaterial>)

  /** An upload-heap buffer of `stagingResources` and what was written into it. */
  datatype Staging = Staging(resource: nat, contents: seq<byte>)

  /** A command recorded on the copy command list. */
  datatype CopyCommand =
    | CopyBuffer(dst: nat, src: nat, size: nat)
    | CopyTexture(dst: nat, src: nat, footprint: Footprint)

  /** What one `Render` records: the allocator it resets, the render target it
      clears and draws into, the vertices drawn and the fence value it signals. */
  datatype FrameRecord = FrameRecord(allocator: nat, renderTarget: nat, vertexCount: nat, signalled: nat)

  /** Every material's texture references resolve against `imageCount` textures and
      `samplerCount` samplers. */
  predicate MaterialsResolve(materials: seq<Material.GltfMaterial>, textures: seq<Material.GltfTexture>, imageCount: nat, samplerCount: nat) {
    forall i :: 0 <= i < |materials| ==>
      && Material.Resolves(materials[i].baseColorTexture, textures, imageCount, samplerCount)
      && Material.Resolves(materials[i].metallicRoughnessTexture, textures, imageCount, samplerCount)
  }

  /** Every image can be staged with the footprint reported for it. */
  ghost predicate ImagesStageable(images: seq<Image>, footprints: seq<Footprint>) {
    |footprints| == |images| &&
    forall i :: 0 <= i < |images| ==>
      WellFormedImage(images[i]) && ValidFootprint(footprints[i], images[i].width, images[i].height)
  }

  /**
   * What the two upload loops record, resources being numbered from `base` on: per
   * glTF buffer, then per image, a destination resource, an upload buffer numbered
   * right after it with the staged contents, and a copy from the one to the other.
   */
  ghost predicate UploadsRecorded(
    base: nat, data: seq<seq<byte>>, images: seq<Image>, footprints: seq<Footprint>,
    buffers: seq<nat>, textures: seq<nat>, staging: seq<Staging>, copyCommands: seq<CopyCommand>)
    requires ImagesStageable(images, footprints)
  {
    && |buffers| == |data| && |textures| == |images|
    && |staging| == |data| + |images| && |copyCommands| == |data| + |images|
    && (forall i :: 0 <= i < |data| ==>
          && buffers[i] == base + 2 * i
          && staging[i] == Staging(buffers[i] + 1, data[i])
          && copyCommands[i] == CopyBuffer(buffers[i], buffers[i] + 1, |data[i]|))
    && (forall i :: 0 <= i < |images| ==>
          && textures[i] == base + 2 * (|data| + i)
          && staging[|data| + i] == Staging(textures[i] + 1, StageImageAtPitch(images[i], footprints[i]))
          && copyCommands[|data| + i] == CopyTexture(textures[i], textures[i] + 1, footprints[i]))
  }

  /** The buffer loop's records followed by the image loop's make up the uploads. */
  lemma UploadsCombine(
    base: nat, data: seq<seq<byte>>, images: seq<Image>, footprints: seq<Footprint>,
    buffers: seq<nat>, textures: seq<nat>, bufferStaging: seq<Staging>, imageStaging: seq<Staging>,
    bufferCommands: seq<CopyCommand>, copyCommands: seq<CopyCommand>)
    requires ImagesStageable(images, footprints)
    requires |buffers| == |data| && |bufferStaging| == |data| && |bufferCommands| == |data|
    requires |textures| == |images| && |imageStaging| == |images|
    requires |copyCommands| == |data| + |images| && copyCommands[..|data|] == bufferCommands
    requires forall i :: 0 <= i < |data| ==>
      && buffers[i] == base + 2 * i
      && bufferStaging[i] == Staging(base + 2 * i + 1, data[i])
      && bufferCommands[i] == CopyBuffer(buffers[i], bufferStaging[i].resource, |data[i]|)
    requires forall i :: 0 <= i < |images| ==>
      && textures[i] == base + 2 * |data| + 2 * i
      && imageStaging[i] == Staging(base + 2 * |data| + 2 * i + 1, StageImageAtPitch(images[i], footprints[i]))
      && copyCommands[|data| + i] == CopyTexture(textures[i], imageStaging[i].resource, footprints[i])
    ensures UploadsRecorded(base, data, images, footprints, buffers, textures, bufferStaging + imageStaging, copyCommands)
  {
    var staging := bufferStaging + imageStaging;
    forall i | 0 <= i < |data|
      ensures staging[i] == Staging(buffers[i] + 1, data[i])
      ensures copyCommands[i] == CopyBuffer(buffers[i], buffers[i] + 1, |data[i]|)
    {
      assert copyCommands[i] == bufferCommands[i];
    }
    forall i | 0 <= i < |images|
      ensures staging[|data| + i] == Staging(textures[i] + 1, StageImageAtPitch(images[i], footprints[i]))
    {
      assert staging[|data| + i] == imageStaging[i];
    }
  }

  /** The number of invalid-wrap warnings the sampler loop prints. */
  function WrapWarnings(samplers: seq<Sampler.GltfSampler>): nat {
    if samplers == [] then 0
    else WrapWarnings(samplers[..|samplers| - 1]) + Sampler.TranslateSampler(samplers[|samplers| - 1]).warnings
  }

  /** The number of unsupported-MASK warnings the material loop prints. */
  function MaskWarnings(materials: seq<Material.GltfMaterial>): nat {
    if materials == [] then 0
    else MaskWarnings(materials[..|materials| - 1]) + (if materials[|materials| - 1].alphaMode == "MASK" then 1 else 0)
  }

  /** The sampler table the sampler loop builds: one translated description per glTF
      sampler, in order. */
  function SamplerTable(samplers: seq<Sampler.GltfSampler>): (table: seq<Sampler.SamplerDesc>)
    ensures |table| == |samplers|
  {
    if samplers == [] then []
    else SamplerTable(samplers[..|samplers| - 1]) + [Sampler.TranslateSampler(samplers[|samplers| - 1]).desc]
  }

  /** Entry `i` of the sampler table translates glTF sampler `i`. */
  lemma {:induction false} SamplerTableAt(samplers: seq<Sampler.GltfSampler>, i: nat)
    requires i < |samplers|
    ensures SamplerTable(samplers)[i] == Sampler.TranslateSampler(samplers[i]).desc
  {
    var prefix := samplers[..|samplers| - 1];
    if i < |prefix| {
      SamplerTableAt(prefix, i);
    }
  }

  /** The material table the material loop builds: one material per glTF material, in
      order, against the texture resources `images` and the sampler table. */
  function MaterialTable(
    ms: seq<Material.GltfMaterial>, textures: seq<Material.GltfTexture>, images: seq<nat>, samplerDescs: seq<Sampler.SamplerDesc>,
    structSize: uint64, srvIncrement: nat, samplerIncrement: nat): (table: seq<Material.MaterialState>)
    requires MaterialsResolve(ms, textures, |images|, |samplerDescs|)
    requires structSize + ConstantBufferAlignment - 1 < Two64
    ensures |table| == |ms|
  {
    if ms == [] then []
    else
      var last := ms[|ms| - 1];
      MaterialTable(ms[..|ms| - 1], textures, images, samplerDescs, structSize, srvIncrement, samplerIncrement)
        + [Material.BuildMaterial(last, textures, images, samplerDescs, structSize, srvIncrement, samplerIncrement).material]
  }

  /** Entry `i` of the material table is built from glTF material `i`. */
  lemma {:induction false} MaterialTableAt(
    ms: seq<Material.GltfMaterial>, textures: seq<Material.GltfTexture>, images: seq<nat>, samplerDescs: seq<Sampler.SamplerDesc>,
    structSize: uint64, srvIncrement: nat, samplerIncrement: nat, i: nat)
    requires MaterialsResolve(ms, textures, |images|, |samplerDescs|)
    requires structSize + ConstantBufferAlignment - 1 < Two64
    requires i < |ms|
    ensures MaterialTable(ms, textures, images, samplerDescs, structSize, srvIncrement, samplerIncrement)[i]
      == Material.BuildMaterial(ms[i], textures, images, samplerDescs, structSize, srvIncrement, samplerIncrement).material
  {
    var prefix := ms[..|ms| - 1];
    if i < |prefix| {
      MaterialTableAt(prefix, textures, images, samplerDescs, structSize, srvIncrement, samplerIncrement, i);
    }
  }

  // ---------------------------------------------------------------------------
  // Frame synchronisation on the direct queue

  /** `m_directFenceValue` and `m_directFence`. */
  datatype DirectQueue = DirectQueue(fenceValue: nat, fence: FenceState)

  /** Nothing is in flight and the fence has reached the counter. */
  predicate FrameReady(q: DirectQueue) {
    q.fence == FenceState(q.fenceValue, [])
  }

  /** The wait of `Update` (renderer.cpp:713-721): `None` when it never returns. */
  function UpdateWait(q: DirectQueue): (r: Option<FenceState>)
    ensures r.Some? ==> r.value.completed >= q.fenceValue
    ensures r.None? <==> q.fence.completed < q.fenceValue && AllBelow(q.fence.pending, q.fenceValue)
  {
    WaitFor(q.fence, q.fenceValue)
  }

  /** The end of `Render` as written (renderer.cpp:777-786): signal the current
      counter, increment it, then wait for the value signalled. */
  function RenderSubmit(q: DirectQueue): (r: DirectQueue)
    ensures r.fenceValue == q.fenceValue + 1
    ensures r.fence.completed >= q.fenceValue
  {
    var fence := q.fenceValue;
    WaitForOwnSignal(q.fence, fence);
    DirectQueue(q.fenceValue + 1, WaitFor(Signal(q.fence, fence), fence).value)
  }

  /** The same with the counter incremented before the signal, as the copy queue does
      it (renderer.cpp:302). */
  function RenderSubmitFixed(q: DirectQueue): (r: DirectQueue)
    ensures r.fenceValue == q.fenceValue + 1
    ensures r.fence.completed >= r.fenceValue
  {
    var fence := q.fenceValue + 1;
    WaitForOwnSignal(q.fence, fence);
    DirectQueue(fence, WaitFor(Signal(q.fence, fence), fence).value)
  }

  /** `n` frames of `Update` then `Render`, signalling as written or with the fix;
      `None` once an `Update` never returns. */
  function Frames(q: DirectQueue, n: nat, fixedSignal: bool): (r: Option<DirectQueue>)
    ensures r.Some? ==> r.value.fenceValue == q.fenceValue + n
  {
    if n == 0 then Some(q)
    else
      match Frames(q, n - 1, fixedSignal)
      case None => None
      case Some(p) =>
        match UpdateWait(p)
        case None => None
        case Some(f) =>
          var ready := p.(fence := f);
          Some(if fixedSignal then RenderSubmitFixed(ready) else RenderSubmit(ready))
  }

  /** As written, `Render` returns without waiting for its submission: the fence
      already holds the value it signals, so the wait is skipped and the signal is
      still pending when `Render` returns. */
  lemma RenderLeavesSubmissionPending(q: DirectQueue)
    requires FrameReady(q)
    ensures RenderSubmit(q).fence == FenceState(q.fenceValue, [q.fenceValue])
  {
  }

  /** As written, the `Update` after a `Render` waits for a value no signal carries,
      so the second frame never starts. */
  lemma SecondFrameHangs(q: DirectQueue)
    requires FrameReady(q)
    ensures Frames(q, 1, false).Some?
    ensures Frames(q, 2, false) == None
  {
    RenderLeavesSubmissionPending(q);
    assert Frames(q, 1, false) == Some(RenderSubmit(q));
  }

  /** With the counter incremented before the signal, `Render` returns only once the
      GPU has reached its submission, and nothing is left in flight. */
  lemma FixedRenderCompletesSubmission(q: DirectQueue)
    requires FrameReady(q)
    ensures FrameReady(RenderSubmitFixed(q))
    ensures RenderSubmitFixed(q).fence.completed == q.fenceValue + 1
  {
    var f := Signal(q.fence, q.fenceValue + 1);
    assert GpuStep(f) == FenceState(q.fenceValue + 1, []);
    assert WaitFor(f, q.fenceValue + 1) == Some(FenceState(q.fenceValue + 1, []));
  }

  /** With the fix, any number of frames run without a hang, each raising the counter by one. */
  lemma {:induction false} FixedFramesNeverHang(q: DirectQueue, n: nat)
    requires FrameReady(q)
    ensures Frames(q, n, true) == Some(DirectQueue(q.fenceValue + n, FenceState(q.fenceValue + n, [])))
  {
    if n > 0 {
      FixedFramesNeverHang(q, n - 1);
      var p := DirectQueue(q.fenceValue + n - 1, FenceState(q.fenceValue + n - 1, []));
      assert UpdateWait(p) == Some(p.fence);
      FixedRenderCompletesSubmission(p);
    }
  }

  // ---------------------------------------------------------------------------
  // The renderer

  class Renderer {

    var width: nat
    var height: nat
    var title: string

    var moduleDir: string
    var shaderPath: string
    var modelPath: string

    /** `m_adapter`, as an enumeration index. */
    var adapter: Option<nat>

    var buffers: seq<nat>
    var textures: seq<nat>
    var samplerDescs: seq<Sampler.SamplerDesc>
    var materials: seq<Material.MaterialState>

    /** The commands recorded on `m_copyCommandList`. */
    var copyCommands: seq<CopyCommand>

    /** The number the upload loops give their next buffer, texture or upload buffer. */
    var nextResource: nat

    var copyFenceValue: nat
    var copyFence: FenceState
    var directFenceValue: nat
    var directFence: FenceState
    /** Whether `Init` has created the two fences. */
    ghost var fencesCreated: bool

    var frameIndex: nat

    /** `Renderer(width, height, title, hInstance)` (renderer.cpp:18-49), with the
        module path `GetModuleFileNameW` returns as a parameter. */
    constructor(width: nat, height: nat, title: string, modulePath: string)
      requires ModulePath.Backslash in modulePath
      ensures this.width == width && this.height == height && this.title == title
      ensures moduleDir == ModulePath.ModuleDir(modulePath)
      ensures shaderPath == ModulePath.ShaderPath(modulePath)
      ensures modelPath == ModulePath.ModelPath(modulePath)
      ensures adapter == None
      ensures buffers == [] && textures == [] && samplerDescs == [] && materials == [] && copyCommands == []
      ensures copyFenceValue == 0 && directFenceValue == 0 && frameIndex == 0 && nextResource == 0
      ensures !fencesCreated
    {
      this.width := width;
      this.height := height;
      this.title := title;
      moduleDir := ModulePath.ModuleDir(modulePath);
      shaderPath := ModulePath.ModuleDir(modulePath) + ModulePath.ShaderFile;
      modelPath := ModulePath.ModuleDir(modulePath) + ModulePath.ModelFile;
      adapter := None;
      buffers := [];
      textures := [];
      samplerDescs := [];
      materials := [];
      copyCommands := [];
      nextResource := 0;
      copyFenceValue := 0;
      copyFence := Created(0);
      directFenceValue := 0;
      directFence := Created(0);
      fencesCreated := false;
      frameIndex := 0;
    }

    /** `CreateCommittedResource` in the upload loops: a new resource number. */
    method NewResource() returns (id: nat)
      modifies this`nextResource
      ensures id == old(nextResource) && nextResource == id + 1
    {
      id := nextResource;
      nextResource := nextResource + 1;
    }

    /**
     * The buffer loop (renderer.cpp:192-230): per glTF buffer a destination buffer
     * is appended to `m_buffers`, an upload buffer holding a copy of the data to the
     * staging list, and a copy of the whole buffer to the copy command list.
     */
    method UploadBuffers(data: seq<seq<byte>>) returns (staging: seq<Staging>)
      modifies this`buffers, this`nextResource, this`copyCommands
      ensures nextResource == old(nextResource) + 2 * |data|
      ensures |buffers| == old(|buffers|) + |data| && buffers[..old(|buffers|)] == old(buffers)
      ensures |copyCommands| == old(|copyCommands|) + |data| && copyCommands[..old(|copyCommands|)] == old(copyCommands)
      ensures |staging| == |data|
      ensures forall i :: 0 <= i < |data| ==>
        && buffers[old(|buffers|) + i] == old(nextResource) + 2 * i
        && staging[i] == Staging(old(nextResource) + 2 * i + 1, data[i])
        && copyCommands[old(|copyCommands|) + i] == CopyBuffer(buffers[old(|buffers|) + i], staging[i].resource, |data[i]|)
    {
      staging := [];
      var i := 0;
      while i < |data|
        invariant i <= |data|
        invariant nextResource == old(nextResource) + 2 * i
        invariant |buffers| == old(|buffers|) + i && buffers[..old(|buffers|)] == old(buffers)
        invariant |copyCommands| == old(|copyCommands|) + i && copyCommands[..old(|copyCommands|)] == old(copyCommands)
        invariant |staging| == i
        invariant forall k :: 0 <= k < i ==>
          && buffers[old(|buffers|) + k] == old(nextResource) + 2 * k
          && staging[k] == Staging(old(nextResource) + 2 * k + 1, data[k])
          && copyCommands[old(|copyCommands|) + k] == CopyBuffer(buffers[old(|buffers|) + k], staging[k].resource, |data[k]|)
      {
        var dst := NewResource();
        buffers := buffers + [dst];
        var src := NewResource();
        staging := staging + [Staging(src, data[i])];
        copyCommands := copyCommands + [CopyBuffer(dst, src, |data[i]|)];
        i := i + 1;
      }
    }

    /** Stage one image: a zeroed upload buffer of the footprint's size, filled by the
        row loop (renderer.cpp:262-282) with rows `rowPitch` bytes apart, where the
        copy location of renderer.cpp:286-291 reads them; the loop as written steps
        by `rowSize`, which `StageImage` models. */
    method StageOne(image: Image, fp: Footprint) returns (contents: seq<byte>)
      requires WellFormedImage(image) && ValidFootprint(fp, image.width, image.height)
      ensures contents == StageImageAtPitch(image, fp)
    {
      ImageRowsFit(image, fp);
      var mapped := new byte[fp.totalBytes](_ => 0);
      assert mapped[..] == Zeroed(fp.totalBytes);
      CopyRows(mapped, image.data, fp.rowCount, image.width * image.component, fp.rowPitch);
      contents := mapped[..];
    }

    /**
     * The image loop (renderer.cpp:232-294): per glTF image a texture is appended to
     * `m_textures`, a staged upload buffer to the staging list, and a copy with the
     * reported footprint to the copy command list.
     */
    method UploadImages(images: seq<Image>, footprints: seq<Footprint>) returns (staging: seq<Staging>)
      requires ImagesStageable(images, footprints)
      modifies this`textures, this`nextResource, this`copyCommands
      ensures nextResource == old(nextResource) + 2 * |images|
      ensures |textures| == old(|textures|) + |images| && textures[..old(|textures|)] == old(textures)
      ensures |copyCommands| == old(|copyCommands|) + |images| && copyCommands[..old(|copyCommands|)] == old(copyCommands)
      ensures |staging| == |images|
      ensures forall i :: 0 <= i < |images| ==>
        && textures[old(|textures|) + i] == old(nextResource) + 2 * i
        && staging[i] == Staging(old(nextResource) + 2 * i + 1, StageImageAtPitch(images[i], footprints[i]))
        && copyCommands[old(|copyCommands|) + i] == CopyTexture(textures[old(|textures|) + i], staging[i].resource, footprints[i])
    {
      staging := [];
      var i := 0;
      while i < |images|
        invariant i <= |images|
        invariant nextResource == old(nextResource) + 2 * i
        invariant |textures| == old(|textures|) + i && textures[..old(|textures|)] == old(textures)
        invariant |copyCommands| == old(|copyCommands|) + i && copyCommands[..old(|copyCommands|)] == old(copyCommands)
        invariant |staging| == i
        invariant forall k :: 0 <= k < i ==>
          && textures[old(|textures|) + k] == old(nextResource) + 2 * k
          && staging[k] == Staging(old(nextResource) + 2 * k + 1, StageImageAtPitch(images[k], footprints[k]))
          && copyCommands[old(|copyCommands|) + k] == CopyTexture(textures[old(|textures|) + k], staging[k].resource, footprints[k])
      {
        var dst := NewResource();
        textures := textures + [dst];
        var src := NewResource();
        var contents := StageOne(images[i], footprints[i]);
        staging := staging + [Staging(src, contents)];
        copyCommands := copyCommands + [CopyTexture(dst, src, footprints[i])];
        i := i + 1;
      }
    }

    /** Close the copy list, execute it and signal `++m_copyFenceValue` (renderer.cpp:296-302). */
    method SubmitCopies()
      modifies this`copyFenceValue, this`copyFence
      ensures copyFenceValue == old(copyFenceValue) + 1
      ensures copyFence == Signal(old(copyFence), copyFenceValue)
    {
      copyFenceValue := copyFenceValue + 1;
      copyFence := Signal(copyFence, copyFenceValue);
    }

    /** The sampler loop (renderer.cpp:304-368): one translated description per glTF
        sampler, in order, and the number of invalid-wrap warnings printed. */
    method CreateSamplers(samplers: seq<Sampler.GltfSampler>) returns (warnings: nat)
      modifies this`samplerDescs
      ensures samplerDescs == old(samplerDescs) + SamplerTable(samplers)
      ensures warnings == WrapWarnings(samplers)
    {
      warnings := 0;
      var i := 0;
      while i < |samplers|
        invariant i <= |samplers|
        invariant samplerDescs == old(samplerDescs) + SamplerTable(samplers[..i])
        invariant warnings == WrapWarnings(samplers[..i])
      {
        var build := Sampler.TranslateSampler(samplers[i]);
        samplerDescs := samplerDescs + [build.desc];
        warnings := warnings + build.warnings;
        assert samplers[..i + 1][..i] == samplers[..i];
        i := i + 1;
      }
      assert samplers[..i] == samplers;
    }

    /** The material loop (renderer.cpp:370-517): one material per glTF material, in
        order, built against the current texture and sampler tables. */
    method CreateMaterials(
      gltfMaterials: seq<Material.GltfMaterial>, gltfTextures: seq<Material.GltfTexture>,
      structSize: uint64, srvIncrement: nat, samplerIncrement: nat) returns (warnings: nat)
      requires MaterialsResolve(gltfMaterials, gltfTextures, |textures|, |samplerDescs|)
      requires structSize + ConstantBufferAlignment - 1 < Two64
      modifies this`materials
      ensures materials == old(materials) + MaterialTable(gltfMaterials, gltfTextures, textures, samplerDescs, structSize, srvIncrement, samplerIncrement)
      ensures warnings == MaskWarnings(gltfMaterials)
    {
      warnings := 0;
      var i := 0;
      while i < |gltfMaterials|
        invariant i <= |gltfMaterials|
        invariant materials == old(materials) + MaterialTable(gltfMaterials[..i], gltfTextures, textures, samplerDescs, structSize, srvIncrement, samplerIncrement)
        invariant warnings == MaskWarnings(gltfMaterials[..i])
      {
        var build := Material.BuildMaterial(gltfMaterials[i], gltfTextures, textures, samplerDescs, structSize, srvIncrement, samplerIncrement);
        materials := materials + [build.material];
        if build.maskWarning {
          warnings := warnings + 1;
        }
        assert gltfMaterials[..i + 1][..i] == gltfMaterials[..i];
        i := i + 1;
      }
      assert gltfMaterials[..i] == gltfMaterials;
    }

    /** The copy-fence wait at the end of the uploads (renderer.cpp:519-524). The value
        waited for is the last one signalled, so whether or not the GPU has reached it
        yet, the wait returns with every copy done. */
    method WaitForCopies()
      requires copyFence == FenceState(copyFenceValue, []) || (copyFence.completed < copyFenceValue && copyFence.pending == [copyFenceValue])
      modifies this`copyFence
      ensures copyFence == FenceState(copyFenceValue, [])
    {
      if copyFence.completed < copyFenceValue {
        assert GpuStep(copyFence) == FenceState(copyFenceValue, []);
        assert WaitFor(copyFence, copyFenceValue) == Some(FenceState(copyFenceValue, []));
        copyFence := WaitFor(copyFence, copyFenceValue).value;
      }
    }

    /** The adapter choice and the two fences (renderer.cpp:85-97, 115-122). */
    method CreateDevice(adapterMemory: seq<nat>)
      modifies this`adapter, this`directFence, this`copyFence, this`fencesCreated
      ensures adapter == Adapter.Choice(adapterMemory)
      ensures directFence == Created(directFenceValue) && copyFence == Created(copyFenceValue)
      ensures fencesCreated
    {
      adapter := Adapter.ChooseAdapter(adapterMemory);
      directFence := Created(directFenceValue);
      copyFence := Created(copyFenceValue);
      fencesCreated := true;
    }

    /** The two upload loops (renderer.cpp:192-294): the staging list holds the
        buffers' upload buffers, then the images'. */
    method UploadAll(buffersData: seq<seq<byte>>, images: seq<Image>, footprints: seq<Footprint>)
      returns (staging: seq<Staging>)
      requires buffers == [] && textures == [] && copyCommands == []
      requires ImagesStageable(images, footprints)
      modifies this`buffers, this`textures, this`nextResource, this`copyCommands, this`copyFenceValue, this`copyFence
      ensures nextResource == old(nextResource) + 2 * (|buffersData| + |images|)
      ensures UploadsRecorded(old(nextResource), buffersData, images, footprints, buffers, textures, staging, copyCommands)
      ensures copyFenceValue == old(copyFenceValue) + 1
      ensures copyFence == Signal(old(copyFence), copyFenceValue)
    {
      var bufferStaging := UploadBuffers(buffersData);
      ghost var bufferCommands := copyCommands;
      var imageStaging := UploadImages(images, footprints);
      UploadsCombine(old(nextResource), buffersData, images, footprints, buffers, textures, bufferStaging, imageStaging, bufferCommands, copyCommands);
      staging := bufferStaging + imageStaging;
      SubmitCopies();
    }

    /** The sampler and material loops (renderer.cpp:304-517). */
    method CreateTables(
      samplers: seq<Sampler.GltfSampler>, gltfMaterials: seq<Material.GltfMaterial>, gltfTextures: seq<Material.GltfTexture>,
      structSize: uint64, srvIncrement: nat, samplerIncrement: nat) returns (warnings: nat)
      requires samplerDescs == [] && materials == []
      requires MaterialsResolve(gltfMaterials, gltfTextures, |textures|, |samplers|)
      requires structSize + ConstantBufferAlignment - 1 < Two64
      modifies this`samplerDescs, this`materials
      ensures samplerDescs == SamplerTable(samplers)
      ensures materials == MaterialTable(gltfMaterials, gltfTextures, textures, samplerDescs, structSize, srvIncrement, samplerIncrement)
      ensures warnings == WrapWarnings(samplers) + MaskWarnings(gltfMaterials)
    {
      var wrapWarnings := CreateSamplers(samplers);
      var maskWarnings := CreateMaterials(gltfMaterials, gltfTextures, structSize, srvIncrement, samplerIncrement);
      warnings := wrapWarnings + maskWarnings;
    }

    /** The uploads, the copy submission, the two tables, the copy-fence wait and the
        first back-buffer index (renderer.cpp:192-526). */
    method LoadAssets(
      doc: Document, footprints: seq<Footprint>, structSize: uint64, srvIncrement: nat, samplerIncrement: nat,
      backBufferIndex: nat)
      returns (staging: seq<Staging>, warnings: nat)
      requires buffers == [] && textures == [] && samplerDescs == [] && materials == [] && copyCommands == []
      requires copyFence == Created(copyFenceValue)
      requires ImagesStageable(doc.images, footprints)
      requires MaterialsResolve(doc.materials, doc.textures, |doc.images|, |doc.samplers|)
      requires structSize + ConstantBufferAlignment - 1 < Two64
      modifies this`buffers, this`textures, this`nextResource, this`copyCommands, this`copyFenceValue, this`copyFence
      modifies this`samplerDescs, this`materials, this`frameIndex
      ensures nextResource == old(nextResource) + 2 * (|doc.buffers| + |doc.images|)
      ensures UploadsRecorded(old(nextResource), doc.buffers, doc.images, footprints, buffers, textures, staging, copyCommands)
      ensures samplerDescs == SamplerTable(doc.samplers)
      ensures materials == MaterialTable(doc.materials, doc.textures, textures, samplerDescs, structSize, srvIncrement, samplerIncrement)
      ensures copyFenceValue == old(copyFenceValue) + 1
      ensures copyFence == FenceState(copyFenceValue, [])
      ensures frameIndex == backBufferIndex
      ensures warnings == WrapWarnings(doc.samplers) + MaskWarnings(doc.materials)
    {
      staging := UploadAll(doc.buffers, doc.images, footprints);
      warnings := CreateTables(doc.samplers, doc.materials, doc.textures, structSize, srvIncrement, samplerIncrement);
      WaitForCopies();
      frameIndex := backBufferIndex;
    }

    /**
     * The modelled steps of `Renderer::Init` (renderer.cpp:68-526), in their order:
     * adapter choice, fence creation, the buffer and image uploads, the copy
     * submission, the sampler and material tables, the copy-fence wait and the first
     * back-buffer index. The adapter memories, the image footprints, the size of
     * `PBRMetallicRoughness`, the descriptor sizes and the back-buffer index are
     * what the device reports. Returns the staging list and the warnings printed.
     */
    method Init(
      doc: Document, adapterMemory: seq<nat>, footprints: seq<Footprint>, structSize: uint64,
      srvIncrement: nat, samplerIncrement: nat, backBufferIndex: nat)
      returns (staging: seq<Staging>, warnings: nat)
      requires buffers == [] && textures == [] && samplerDescs == [] && materials == [] && copyCommands == []
      requires ImagesStageable(doc.images, footprints)
      requires MaterialsResolve(doc.materials, doc.textures, |doc.images|, |doc.samplers|)
      requires structSize + ConstantBufferAlignment - 1 < Two64
      requires backBufferIndex < FrameCount
      modifies this`adapter, this`directFence, this`copyFence, this`fencesCreated
      modifies this`buffers, this`textures, this`nextResource, this`copyCommands, this`copyFenceValue
      modifies this`samplerDescs, this`materials, this`frameIndex
      ensures adapter == Adapter.Choice(adapterMemory)
      ensures nextResource == old(nextResource) + 2 * (|doc.buffers| + |doc.images|)
      ensures UploadsRecorded(old(nextResource), doc.buffers, doc.images, footprints, buffers, textures, staging, copyCommands)
      ensures samplerDescs == SamplerTable(doc.samplers)
      ensures materials == MaterialTable(doc.materials, doc.textures, textures, samplerDescs, structSize, srvIncrement, samplerIncrement)
      ensures copyFenceValue == old(copyFenceValue) + 1
      ensures copyFence == FenceState(copyFenceValue, [])
      ensures directFenceValue == old(directFenceValue) && directFence == Created(directFenceValue)
      ensures fencesCreated && frameIndex == backBufferIndex
      ensures warnings == WrapWarnings(doc.samplers) + MaskWarnings(doc.materials)
    {
      CreateDevice(adapterMemory);
      staging, warnings := LoadAssets(doc, footprints, structSize, srvIncrement, samplerIncrement, backBufferIndex);
    }

    /** `Renderer::Update` (renderer.cpp:713-721): wait until the direct fence reaches
        `m_directFenceValue`; `hung` when that wait never returns. */
    method Update() returns (hung: bool)
      requires fencesCreated
      modifies this`directFence
      ensures hung <==> UpdateWait(DirectQueue(directFenceValue, old(directFence))).None?
      ensures !hung ==> Some(directFence) == UpdateWait(DirectQueue(directFenceValue, old(directFence)))
      ensures hung ==> directFence == old(directFence)
    {
      hung := false;
      if directFence.completed < directFenceValue {
        var waited := WaitFor(directFence, directFenceValue);
        if waited.None? {
          hung := true;
          return;
        }
        directFence := waited.value;
      }
    }

    /**
     * `Renderer::Render` (renderer.cpp:723-789): reset allocator 0, record a clear and
     * a three-vertex draw into render target `m_frameIndex`, present, signal the
     * fence, wait for the value signalled, and take the swap chain's new back-buffer
     * index. The counter is incremented before the signal, as `Init` does for the
     * copy fence; the code as written signals the old value, which `RenderSubmit`
     * models.
     */
    method Render(backBufferIndex: nat) returns (frame: FrameRecord)
      requires fencesCreated && frameIndex < FrameCount && backBufferIndex < FrameCount
      modifies this`directFenceValue, this`directFence, this`frameIndex
      ensures frame == FrameRecord(0, old(frameIndex), 3, directFenceValue)
      ensures DirectQueue(directFenceValue, directFence) == RenderSubmitFixed(DirectQueue(old(directFenceValue), old(directFence)))
      ensures directFenceValue == old(directFenceValue) + 1 && directFence.completed >= frame.signalled
      ensures FrameReady(DirectQueue(old(directFenceValue), old(directFence))) ==> FrameReady(DirectQueue(directFenceValue, directFence))
      ensures frameIndex == backBufferIndex
    {
      directFenceValue := directFenceValue + 1;
      var fence := directFenceValue;
      frame := FrameRecord(0, frameIndex, 3, fence);
      directFence := Signal(directFence, fence);
      if directFence.completed < fence {
        WaitForOwnSignal(old(directFence), fence);
        directFence := WaitFor(directFence, fence).value;
      }
      frameIndex := backBufferIndex;
      if FrameReady(DirectQueue(old(directFenceValue), old(directFence))) {
        FixedRenderCompletesSubmission(DirectQueue(old(directFenceValue), old(directFence)));
      }
    }
  }
}
