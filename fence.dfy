/**
 * An ID3D12Fence as the CPU sees it: the completed value and the signals a
 * command queue has enqueued but the GPU has not reached yet, in queue order.
 * Waiting (`SetEventOnCompletion` followed by `WaitForSingleObject(INFINITE)`)
 * lets the GPU work through those signals until the completed value reaches the
 * target; if it never does, the wait never returns.
 */
module Fence {

  import opened Wrappers

  datatype FenceState = FenceState(completed: nat, pending: seq<nat>)

  /** `CreateFence(initial, ...)`: nothing pending yet. */
  function Created(initial: nat): (f: FenceState)
    ensures f.completed == initial && f.pending == []
  {
    FenceState(initial, [])
  }

  /** `ID3D12CommandQueue::Signal(fence, value)`: the signal joins the queue behind
      earlier ones, and the completed value does not change until the GPU reaches it. */
  function Signal(f: FenceState, value: nat): (g: FenceState)
    ensures g.completed == f.completed
    ensures g.pending == f.pending + [value]
  {
    f.(pending := f.pending + [value])
  }

  /** The GPU reaches the oldest pending signal and the fence takes its value. */
  function GpuStep(f: FenceState): (g: FenceState)
    requires f.pending != []
    ensures g.completed == f.pending[0] && [f.pending[0]] + g.pending == f.pending
  {
    FenceState(f.pending[0], f.pending[1..])
  }

  /** No pending signal carries a value of at least `target`. */
  predicate AllBelow(values: seq<nat>, target: nat) {
    forall i :: 0 <= i < |values| ==> values[i] < target
  }

  /**
   * `if (GetCompletedValue() < target) { SetEventOnCompletion(target, e);
   * WaitForSingleObject(e, INFINITE); }`: the fence once the wait returns, or
   * `None` when no signal still queued can complete it, so that the wait hangs.
   */
  function WaitFor(f: FenceState, target: nat): (r: Option<FenceState>)
    ensures r.Some? ==> r.value.completed >= target
    ensures r.None? <==> f.completed < target && AllBelow(f.pending, target)
    decreases |f.pending|
  {
    if f.completed >= target then Some(f)
    else if f.pending == [] then None
    else
      var r := WaitFor(GpuStep(f), target);
      if r.Some? then r
      else
        assert AllBelow(f.pending, target) by {
          forall i | 0 <= i < |f.pending|
            ensures f.pending[i] < target
          {
            if i > 0 {
              assert f.pending[i] == GpuStep(f).pending[i - 1];
            }
          }
        }
        r
  }

  /** Waiting for a value just signalled always returns: the signal itself is still
      pending, and no pending signal below the target can stop the GPU reaching it. */
  lemma WaitForOwnSignal(f: FenceState, value: nat)
    ensures WaitFor(Signal(f, value), value).Some?
  {
    var g := Signal(f, value);
    assert g.pending[|g.pending| - 1] == value;
  }

  /** The GPU moving on cannot make a hanging wait return. */
  lemma {:induction false} HangSurvivesProgress(f: FenceState, target: nat)
    requires WaitFor(f, target).None? && f.pending != []
    ensures WaitFor(GpuStep(f), target).None?
  {
    var g := GpuStep(f);
    forall i | 0 <= i < |g.pending|
      ensures g.pending[i] < target
    {
      assert g.pending[i] == f.pending[i + 1];
    }
  }
}
