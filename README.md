# RenderLab renderer — a Dafny model

RenderLab is a small Direct3D 12 renderer. It reads a glTF model, uploads its
buffers and images through upload-heap staging buffers, and translates its
samplers and materials into Direct3D descriptors. It then renders frames in
step with a direct-queue fence. This project models the `Renderer` class in
`source/renderer.cpp` as the bookkeeping that class keeps. Of the Direct3D
objects, only the uploaded buffers, the textures and their staging buffers
appear, as resource numbers given out in creation order; the other objects are
absent from the model.

The modules, one file each:

- `ModulePath` (`module_path.dfy`): the module directory and the shader and
  model paths the constructor builds from it.
- `Alignment` (`alignment.dfy`): `alignPow2`, with uint64 wrap-around written
  out, and the width of a material's constant buffer.
- `Adapter` (`adapter.dfy`): the adapter enumeration loop.
- `Fence` (`fence.dfy`): an `ID3D12Fence` as the CPU sees it. It has a
  completed value and a queue of pending signals. A wait either returns or
  hangs for ever.
- `TextureUpload` (`texture_upload.dfy`): `memcpy`, the row loop that stages
  an image in an upload buffer, and the placed footprint that
  `CopyTextureRegion` reads.
- `Sampler` (`sampler.dfy`): the translation of a glTF sampler into a
  `D3D12_SAMPLER_DESC`.
- `Material` (`material.dfy`): per glTF material, the blend and rasterizer
  states, the texture slots of its constant buffer, and the descriptors
  written into its two heaps.
- `RenderLab` (`renderer.dfy`): the `Renderer` class with its fields and
  methods, plus pure specifications of its resource tables and of the frame
  loop.

`Init`'s upload loops, sampler loop, material loop and adapter loop, and the
row loop that stages an image, are methods with loop invariants. Each is
proved against a pure function or predicate: the upload loops against the
records `UploadsRecorded` describes, the sampler and material loops against
`SamplerTable` and `MaterialTable`, the adapter loop against `Adapter.Choice`,
and the row loop against `Staged`. The properties the renderer relies
on are proved as lemmas about those functions.

## Model

| member | source | states |
|---|---|---|
| ModulePath.LastIndexOf | source/renderer.cpp:41 | `wcsrchr` returns an index holding the character, and no later index holds it |
| ModulePath.ModuleDir | source/renderer.cpp:41-43 | the module directory is a prefix of the module path that ends in a backslash; the rest of the path has no backslash |
| ModulePath.ModuleDirUnique | source/renderer.cpp:41-43 | any prefix that ends at the last backslash is the module directory |
| ModulePath.ShaderPath | source/renderer.cpp:44 | the shader path is the module directory followed by `shaders.hlsl` |
| ModulePath.ModelPath | source/renderer.cpp:48 | the model path is the module directory followed by `Cube\Cube.gltf` |
| ModulePath.ShaderBesideModule | source/renderer.cpp:41-44 | the shader path's own directory is the module directory, followed by `shaders.hlsl` |
| ModulePath.ModelInCubeFolder | source/renderer.cpp:41-48 | the model path's directory is the module directory plus `Cube\`, followed by `Cube.gltf` |
| Alignment.AlignPow2 | source/renderer.cpp:64-66 | `alignPow2` with uint64 wrap-around: an alignment of 1 keeps the value, and an alignment of 0 gives 0; the power-of-two behaviour is in the three rows below |
| Alignment.AlignPow2Smallest | source/renderer.cpp:64-66 | without overflow, `alignPow2(value, 2^k)` is a multiple of `2^k`, is at least `value` and less than `value + 2^k`, and is the least such multiple |
| Alignment.AlignPow2RoundsDown | source/renderer.cpp:64-66 | without overflow, `alignPow2(value, 2^k)` rounds `value + 2^k - 1` down to a multiple of `2^k` |
| Alignment.AlignPow2WrapsToZero | source/renderer.cpp:64-66 | when `value + 2^k - 1` overflows 64 bits, the result wraps round to 0 |
| Alignment.MaterialBufferWidth | source/renderer.cpp:422 | the constant-buffer width is a multiple of 256, at least the struct size, and less than the struct size plus 256 |
| Adapter.ChooseAdapter | source/renderer.cpp:85-97 | the loop leaves the adapter that `Choice` names |
| Adapter.Choice | source/renderer.cpp:85-97 | no adapter when none are enumerated; otherwise the first with more than 1 GiB of dedicated memory, else the last one enumerated |
| Adapter.ChoiceFrom | source/renderer.cpp:85-97 | from a starting index, the first adapter above 1 GiB, else the last one; every adapter skipped has at most 1 GiB |
| Adapter.ChoiceUnique | source/renderer.cpp:85-97 | the memory sizes determine that choice |
| Fence.Created | source/renderer.cpp:115-122 | a new fence holds its initial value and has nothing pending |
| Fence.Signal | source/renderer.cpp:302 | a signal joins the back of the queue and does not change the completed value |
| Fence.GpuStep | source/renderer.cpp:302 | the GPU reaches the oldest pending signal, and the fence takes its value |
| Fence.WaitFor | source/renderer.cpp:519-524 | a wait that returns leaves the fence at the target or beyond; it hangs exactly when the fence is below the target and every pending signal is below it too |
| Fence.WaitForOwnSignal | source/renderer.cpp:519-524 | a wait for the value just signalled always returns |
| Fence.HangSurvivesProgress | source/renderer.cpp:715-718 | once a wait would hang, the GPU's progress cannot make it return |
| TextureUpload.Memcpy | source/renderer.cpp:281 | `count` bytes from the source land at the destination offset; every other byte keeps its value |
| TextureUpload.CopyRows | source/renderer.cpp:280-282 | after the row loop, the mapped buffer holds `Staged` of its old contents |
| TextureUpload.StagedRowReadback | source/renderer.cpp:280-282 | when rows do not overlap, byte `j` of image row `r` is found `RowStart(stride, r) + j` bytes into the staging buffer, and `RowStartIsProduct` proves `RowStart(stride, r) == stride * r` |
| TextureUpload.StagedOutsideRows | source/renderer.cpp:280-282 | a byte outside every copied row keeps its old value |
| TextureUpload.ImageRowsFit | source/renderer.cpp:258-282 | with at most four bytes per texel, every row the loop copies fits in the staging buffer at either stride, and the image holds every row it reads |
| TextureUpload.ReadRow | source/renderer.cpp:286-291 | byte `j` of the row `r` that `CopyTextureRegion` reads is byte `RowPitch * r + j` of the staging buffer |
| TextureUpload.StageImage | source/renderer.cpp:258-282 | as written, an image staged with rows `rowSize` apart fills a buffer of the footprint's total size |
| TextureUpload.StageImageAtPitch | source/renderer.cpp:258-291 | corrected, an image staged with rows `RowPitch` apart fills a buffer of the footprint's total size; it reads back by `StageImageAtPitchReadsBack` |
| TextureUpload.StageImageAtPitchReadsBack | source/renderer.cpp:280-291 | an RGBA image staged at the row pitch reads back, row by row, as the image it came from, at the placed footprint that `CopyTextureRegion` uses |
| TextureUpload.AsWrittenSecondRowMisplaced | source/renderer.cpp:280-291 | as written, the second row of a 1x2 RGBA image is staged at offset 4, and the footprint reads zeroes at offset 256 |
| Sampler.SamplerFilter | source/renderer.cpp:306-346 | a recognised filter pair gets its glTF meaning; nearest minification with non-nearest magnification becomes MIN_MAG_MIP_LINEAR instead; an unrecognised minification filter gives MIN_MAG_LINEAR_MIP_POINT |
| Sampler.SamplerFilterSeesOnlyMagNearest | source/renderer.cpp:306-346 | the filter depends on the magnification filter only through whether it is NEAREST |
| Sampler.TextureAddress | source/renderer.cpp:348-360 | a valid glTF wrap mode maps to the address mode that names it; an invalid one warns and falls back to WRAP |
| Sampler.TextureAddressRoundTrip | source/renderer.cpp:348-360 | translating the glTF code of an address mode gives that mode back, without a warning |
| Sampler.TranslateSampler | source/renderer.cpp:305-365 | the filter and the U and V address modes come from the glTF sampler, with W = WRAP, MaxLOD = 256, MinLOD = 0 and MaxAnisotropy = 0; one warning per invalid wrap |
| Material.BlendFor | source/renderer.cpp:374-390 | blending is enabled exactly for `BLEND`; `MASK` warns; every mode writes all channels, without alpha-to-coverage, independent blend or logic op |
| Material.BlendModeComposites | source/renderer.cpp:374-390 | the `BLEND` state composites the source over the destination by source alpha, and keeps the source alpha |
| Material.OtherModesWriteOpaque | source/renderer.cpp:374-390 | every other alpha mode has the `OPAQUE` state and writes the source unchanged |
| Material.RasterizerFor | source/renderer.cpp:392-410 | culling is off exactly for double-sided materials and culls back faces otherwise; solid fill, counter-clockwise front faces, no depth bias, clipping, multisampling or conservative rasterization |
| Material.RasterizerMatchesGltf | source/renderer.cpp:392-410 | the rasterizer draws exactly the faces glTF says are visible |
| Material.SlotFor | source/renderer.cpp:469-478 | a referenced texture gets the slot's texture and sampler index; an absent one gets -1 for both |
| Material.WriteDescriptors | source/renderer.cpp:494-515 | a referenced texture gets one SRV and one sampler descriptor at the slot's offset, pointing at its image and sampler, no other key is added, and every descriptor at another key keeps its value; an absent texture leaves the heaps as they were |
| Material.BuildMaterial | source/renderer.cpp:370-516 | one material's blend, rasterizer, constant-buffer width, slots and heaps, as the parts above define them |
| Material.SlotsFindReferencedTextures | source/renderer.cpp:469-515 | with non-zero descriptor sizes, each slot in the constant buffer leads to exactly the image and sampler the glTF material names, and an absent texture leads to nothing |
| RenderLab.SamplerTable | source/renderer.cpp:304-368 | one sampler description per glTF sampler |
| RenderLab.SamplerTableAt | source/renderer.cpp:304-368 | entry `i` of the sampler table is the translation of glTF sampler `i` |
| RenderLab.MaterialTable | source/renderer.cpp:370-517 | one material per glTF material |
| RenderLab.MaterialTableAt | source/renderer.cpp:370-517 | entry `i` of the material table is the material built from glTF material `i` |
| RenderLab.UploadsCombine | source/renderer.cpp:192-294 | the buffer loop's records followed by the image loop's are the uploads `UploadsRecorded` describes: resources numbered in creation order, each upload buffer right after its destination, one copy from each to the other |
| RenderLab.UpdateWait | source/renderer.cpp:713-721 | the wait of `Update` returns with the fence at its counter or beyond; it hangs exactly when the fence and every pending signal are below the counter |
| RenderLab.Frames | source/renderer.cpp:713-786 | after `n` frames that do not hang, the direct counter has advanced by `n`, with either signal order |
| RenderLab.RenderSubmit | source/renderer.cpp:777-786 | as written, `Render` signals the old counter value, increments the counter, and waits only for the old value |
| RenderLab.RenderSubmitFixed | source/renderer.cpp:777-786 | with the counter incremented before the signal, the fence reaches the new counter value |
| RenderLab.RenderLeavesSubmissionPending | source/renderer.cpp:777-786 | as written, `Render` returns with its own signal still pending, and the fence one below the new counter that `Update` then waits for |
| RenderLab.SecondFrameHangs | source/renderer.cpp:713-786 | as written, the first frame completes and `Update` before the second frame hangs |
| RenderLab.FixedRenderCompletesSubmission | source/renderer.cpp:713-786 | corrected, one frame leaves the fence at the counter, so the next `Update` returns at once |
| RenderLab.FixedFramesNeverHang | source/renderer.cpp:713-786 | corrected, any number of frames completes, with the fence and the counter advanced together |
| RenderLab.Renderer.constructor | source/renderer.cpp:18-49 | stores the window size and title and the three paths; empty tables, zero counters, no adapter, no fences |
| RenderLab.Renderer.NewResource | source/renderer.cpp:192-294 | each created resource gets a fresh number |
| RenderLab.Renderer.UploadBuffers | source/renderer.cpp:192-230 | one destination buffer and one copy command per glTF buffer, appended; the staging buffer holds the buffer's bytes |
| RenderLab.Renderer.StageOne | source/renderer.cpp:258-282 | the mapped staging buffer holds the image at the footprint's row pitch |
| RenderLab.Renderer.UploadImages | source/renderer.cpp:232-294 | one texture and one texture copy per glTF image, appended with its footprint; each staging buffer holds that image at the row pitch |
| RenderLab.Renderer.SubmitCopies | source/renderer.cpp:296-302 | the copy fence counter is incremented and signalled |
| RenderLab.Renderer.CreateSamplers | source/renderer.cpp:304-368 | the sampler table gains the translations of the glTF samplers in order; the warnings are counted |
| RenderLab.Renderer.CreateMaterials | source/renderer.cpp:370-517 | the material table gains one built material per glTF material in order; `MASK` warnings are counted |
| RenderLab.Renderer.WaitForCopies | source/renderer.cpp:519-524 | the wait returns, and the copy fence stands at its counter with nothing pending |
| RenderLab.Renderer.UploadAll | source/renderer.cpp:192-302 | from empty tables, the records `UploadsRecorded` describes (staging at the row pitch), resources numbered from the old counter, and the copy fence signalled at its incremented counter |
| RenderLab.Renderer.CreateTables | source/renderer.cpp:304-517 | from empty tables, the sampler table is `SamplerTable` of the glTF samplers and the material table is `MaterialTable` of the glTF materials; the warnings are counted |
| RenderLab.Renderer.CreateDevice | source/renderer.cpp:85-122 | the chosen adapter is `Choice` of the adapters' memory; both fences are created at their counters |
| RenderLab.Renderer.LoadAssets | source/renderer.cpp:192-526 | the uploads as `UploadsRecorded` describes them (staging at the row pitch), the sampler and material tables, one completed copy submission, the resource counter and the back-buffer index |
| RenderLab.Renderer.Init | source/renderer.cpp:68-526 | the adapter choice, the uploads as `UploadsRecorded` describes them (staging at the row pitch), the sampler and material tables, the fences and the resource counter; the window size, title and paths are outside its frame and stay as they were |
| RenderLab.Renderer.Update | source/renderer.cpp:713-721 | returns exactly when the direct fence can reach its counter, and then it has; hangs otherwise |
| RenderLab.Renderer.Render | source/renderer.cpp:723-789 | records a 3-vertex draw into the current back buffer with allocator 0; signals as `RenderSubmitFixed` does; keeps a ready frame ready; takes the new back-buffer index |

## Left out

- Creating Direct3D objects is left out: factory, device, queues, swap chain, allocators, command lists, descriptor heaps, resource descriptions, the root signature, the pipeline state and shader compilation. They are absent from the model, because their behaviour lives in the driver.
- Each material's constant buffer (renderer.cpp:429) and its two descriptor heaps (renderer.cpp:443, 450) get no resource number, so `nextResource` counts only the upload loops' resources. The heaps' contents are modelled as `Material.Heaps`.
- tinygltf loading and the vertex buffer are left out. `Init` receives the parts of the document it reads as a `Document`.
- Floating-point values are not modelled: base-colour factors, viewport, clear colour and depth-bias clamp. The scissor rectangle holds integers; it is left out too, because `Render` models only the draw it records, not the rasterizer-stage state it sets. `Material.OutputMerger` uses `real`.
- `GetCopyableFootprints` is a parameter, constrained by `TextureUpload.ValidFootprint`.
- The size of the `PBRMetallicRoughness` struct is a parameter, because its declaration is not in the header that comes with `source/renderer.cpp`.
- The descriptor increment sizes are parameters.
- Failed calls are left out. The source logs most of them with `OutputDebugString` and carries on; a failed `CreateDXGIFactory2` (renderer.cpp:78-82) returns from `Init` early, which the model does not capture. Invalid-wrap and `MASK` warnings are counted, not printed.
- Event handles and `WaitForSingleObject` are not modelled. A wait is `Fence.WaitFor`, and `None` stands for a wait that never returns.
- The `QueryInterface` step of the adapter loop is assumed to succeed.
- The fence counters do not wrap at 2^64.
- Paths longer than the 512-character buffer are not modelled.
- The case where the module path has no backslash is excluded by a precondition, because the source then writes through a null pointer.
- The narrowing copy of the model path at renderer.cpp:49, which turns each wide character into a `char` before the loader sees it, is not modelled: `ModelPath` is the wide path built at renderer.cpp:48.
- A referenced glTF texture without an image source or a sampler is excluded by `Material.Resolves`. tinygltf stores those as -1, and the source would then index `m_textures[-1]` or `m_samplerDescs[-1]` (renderer.cpp:497-500, 509-513).
- Render targets 1 to 7 of the blend description are not modelled. The source leaves them zeroed, and only target 0 is used.
- Images whose `component` is above 4 are excluded, because the row loop would then overrun the staging buffer.
- `main.cpp`, the window procedure, `Destroy` and the camera TODO are not part of this model.
- RenderLab.Renderer.Init: requires empty tables on entry, as after the constructor; states image staging at the footprint's row pitch, the corrected behaviour (see Findings), not at `rowSize` as written.
- RenderLab.Renderer.LoadAssets: states image staging at the footprint's row pitch, the corrected behaviour (see Findings), not at `rowSize` as written.
- RenderLab.Renderer.UploadAll: states image staging at the footprint's row pitch, the corrected behaviour (see Findings), not at `rowSize` as written.
- RenderLab.Renderer.UploadImages: states image staging at the footprint's row pitch, the corrected behaviour (see Findings), not at `rowSize` as written.
- RenderLab.Renderer.StageOne: stages rows at the footprint's row pitch, the corrected behaviour (see Findings), not at `rowSize` as written.
- RenderLab.Renderer.Render: signals the incremented counter, the corrected behaviour (see Findings), not the old value as written.

## Findings

| source | as written | input that shows it | evidently intended | confidence | as-written member | corrected member |
|---|---|---|---|---|---|---|
| source/renderer.cpp:777-786 | `Render` signals `m_directFenceValue`, then increments it and waits only for the old value | two frames from a fresh renderer: `Update` before the second frame waits for a value that no queued signal carries | signal the incremented value, so the next `Update` finds the fence already there | not executed | RenderLab.SecondFrameHangs | RenderLab.FixedFramesNeverHang |
| source/renderer.cpp:280-291 | image rows are staged `rowSize` bytes apart, but `CopyTextureRegion` reads them `RowPitch` bytes apart | a 1x2 RGBA image with RowPitch 256 and rowSize 4: its second row is written at offset 4 and read from offset 256 | stage row `r` at `RowPitch * r` | not executed | TextureUpload.AsWrittenSecondRowMisplaced | TextureUpload.StageImageAtPitchReadsBack |
