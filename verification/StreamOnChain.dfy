/** The buffered streams on top of a cluster chain. */
module StreamOnChain {
  import opened Basics
  import opened Storage
  import opened Stream
  import opened StreamRun
  import opened FatChain
  import opened FatHandle

  // On a perfect device a call has one outcome.
  lemma OneOutcome(handle: FileHandle, s: Step, t: Step)
    requires handle.device == Perfect && handle.MayStep(s) && handle.MayStep(t)
    requires s.from == t.from && s.call == t.call
    ensures s == t
  {
    if s.call.ReadOf? {
      assert |s.got| == |t.got|;
      assert s.got == t.got;
    }
  }

  lemma {:induction false} OneRun(handle: FileHandle, steps: seq<Step>, others: seq<Step>)
    requires handle.device == Perfect && handle.MayRun(steps) && handle.MayRun(others) && |steps| == |others|
    requires forall i :: 0 <= i < |steps| ==> steps[i].call == others[i].call
    requires steps != [] ==> steps[0].from == others[0].from
    ensures steps == others
  {
    hide FileHandle.MayStep;
    var n := |steps| - 1;
    if n >= 0 {
      OneRun(handle, steps[..n], others[..n]);
      if n > 0 {
        assert steps[n - 1] == steps[..n][n - 1] == others[..n][n - 1] == others[n - 1];
      }
      OneOutcome(handle, steps[n], others[n]);
      assert steps == steps[..n] + [steps[n]] && others == others[..n] + [others[n]];
    }
  }

  function CallsOf(steps: seq<Step>): (calls: seq<Call>)
    ensures |calls| == |steps| && forall i :: 0 <= i < |steps| ==> calls[i] == steps[i].call
  {
    seq(|steps|, i requires 0 <= i < |steps| => steps[i].call)
  }

  lemma LogStarts(handle: FileHandle)
    requires handle.Logged()
    ensures handle.MayRun(handle.log) && if handle.log == [] then handle.point == 0 else handle.log[0].from == 0
    ensures forall i :: 0 <= i < |handle.log| ==> StreamCall(CallsOf(handle.log)[i])
  {
  }

  lemma DescribesFormed(handle: FileHandle, chain: Chain)
    requires Describes(handle, chain)
    ensures chain.Formed() && (chain.drv.reliable ==> handle.device == Perfect)
  {
  }

  /** The chain, asked what a handle has been asked, answers it all the same: the same seeks are
      accepted, the same bytes read, and the same positions passed. */
  method Replay(chain: Chain, handle: FileHandle) returns (steps: seq<Step>)
    requires Describes(handle, chain) && handle.Valid() && handle.Logged() && chain.drv.reliable
    modifies chain, handle`point
    ensures steps == handle.log && Same(chain, handle)
  {
    hide FileHandle.MayStep, FileHandle.Valid, FileHandle.Logged, Describes;
    LogStarts(handle);
    DescribesFormed(handle, chain);
    chain.SeekSet();
    handle.point := 0;
    assert Same(chain, handle);
    var calls := CallsOf(handle.log);
    steps := RunCalls(chain, handle, calls);
    OneRun(handle, steps, handle.log);
  }

  /** Two streams, of video and of audio, over one file on a reliable drive whose size leaves a
      block below 4 GiB: in any interleaving of any operations each answers as the flat bytes of
      the file, and all that they have been told by their handle the chain on the drive tells. */
  method Play(chain: Chain, handle: FileHandle, vStorage: array<bv8>, aStorage: array<bv8>, run: seq<Turn>)
    returns (vs: seq<Answer>, bs: seq<Answer>, steps: seq<Step>)
    requires chain.Formed() && chain.drv.reliable && 0 < chain.size <= U32 - BLOCK && BLOCK % chain.drv.clusterBytes == 0
    requires Describes(handle, chain) && handle.point == 0 && handle.log == []
    requires vStorage.Length == aStorage.Length == BLOCK && vStorage != aStorage
    modifies chain, handle, vStorage, aStorage
    ensures Agrees(chain.Content(), 0, VideoOps(run), vs)
    ensures Agrees(chain.Content(), 0, AudioOps(run), bs)
    ensures steps == handle.log && Same(chain, handle)
  {
    hide Chain.Formed, FileHandle.Logged, Stream.Valid;
    WhenReliedOn(chain, handle);
    var v := Create(handle, vStorage);
    var a := Create(handle, aStorage);
    vs, bs := Interleave(v, a, run);
    steps := Replay(chain, handle);
  }
}
