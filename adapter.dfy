/**
 * The adapter enumeration loop of `Renderer::Init` (renderer.cpp:85-97). Adapters
 * are enumerated in order until `EnumAdapters1` fails; each one is stored in
 * `m_adapter`, and the loop stops at the first with more than 1 GiB of dedicated
 * video memory. An adapter is identified here by its enumeration index and
 * described by its dedicated memory in bytes.
 */
module Adapter {

  import opened Wrappers

  /** `(SIZE_T)1 << 30` */
  const OneGiB: nat := 0x4000_0000

  /** `adapter` is the first adapter with more than 1 GiB of dedicated memory,
      otherwise the last one enumerated, and none when there is no adapter. */
  predicate IsChoice(dedicatedMemory: seq<nat>, adapter: Option<nat>) {
    && (adapter.None? <==> |dedicatedMemory| == 0)
    && (adapter.Some? ==>
          && adapter.value < |dedicatedMemory|
          && (forall j :: 0 <= j < adapter.value ==> dedicatedMemory[j] <= OneGiB)
          && (dedicatedMemory[adapter.value] > OneGiB || adapter.value == |dedicatedMemory| - 1))
  }

  /** The choice is determined by the memory sizes. */
  lemma ChoiceUnique(dedicatedMemory: seq<nat>, a: Option<nat>, b: Option<nat>)
    requires IsChoice(dedicatedMemory, a) && IsChoice(dedicatedMemory, b)
    ensures a == b
  {
  }

  /** The choice among the adapters from `from` on, once those before it were too small. */
  function ChoiceFrom(dedicatedMemory: seq<nat>, from: nat): (adapter: nat)
    requires from < |dedicatedMemory|
    ensures from <= adapter < |dedicatedMemory|
    ensures forall j :: from <= j < adapter ==> dedicatedMemory[j] <= OneGiB
    ensures dedicatedMemory[adapter] > OneGiB || adapter == |dedicatedMemory| - 1
    decreases |dedicatedMemory| - from
  {
    if dedicatedMemory[from] > OneGiB || from == |dedicatedMemory| - 1 then from
    else ChoiceFrom(dedicatedMemory, from + 1)
  }

  /** The adapter the enumeration loop settles on. */
  function Choice(dedicatedMemory: seq<nat>): (adapter: Option<nat>)
    ensures IsChoice(dedicatedMemory, adapter)
  {
    if dedicatedMemory == [] then None else Some(ChoiceFrom(dedicatedMemory, 0))
  }

  /** The adapter left in `m_adapter` once the loop ends. */
  method ChooseAdapter(dedicatedMemory: seq<nat>) returns (adapter: Option<nat>)
    ensures adapter == Choice(dedicatedMemory)
  {
    adapter := None;
    var adapterIndex := 0;
    while adapterIndex < |dedicatedMemory|
      invariant adapterIndex <= |dedicatedMemory|
      invariant adapterIndex == 0 <==> adapter.None?
      invariant adapter.Some? ==> adapter.value == adapterIndex - 1
      invariant forall j :: 0 <= j < adapterIndex ==> dedicatedMemory[j] <= OneGiB
    {
      adapter := Some(adapterIndex);
      if dedicatedMemory[adapterIndex] > OneGiB {
        ChoiceUnique(dedicatedMemory, adapter, Choice(dedicatedMemory));
        return;
      }
      adapterIndex := adapterIndex + 1;
    }
    ChoiceUnique(dedicatedMemory, adapter, Choice(dedicatedMemory));
  }
}
