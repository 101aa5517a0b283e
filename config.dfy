/**
 * The configuration records of the launcher. Both are reference objects:
 * the target editor writes into a TargetConfig in place, and the registry
 * actions find and remove targets by reference, so they are classes here.
 */
module Config {

  /** The launch template a fresh configuration starts with. */
  const DefaultExec: string := "ssh {$Username}@{$IP} -p {$Port}"

  /** The port a fresh target starts with. */
  const DefaultPort: int := 22

  /** One SSH destination. ScanOnline is read and written by the actions
      even though the record file shown does not declare it. */
  class TargetConfig {
    var id: int
    var Name: string
    var IP: string
    var Port: int
    var Username: string
    var ScanOnline: bool

    /** `new TargetConfig()`: the C# property initialisers and defaults. */
    constructor ()
      ensures id == 0 && Name == "" && IP == "" && Port == DefaultPort
      ensures Username == "" && !ScanOnline
    {
      id := 0;
      Name := "";
      IP := "";
      Port := DefaultPort;
      Username := "";
      ScanOnline := false;
    }
  }

  /** The whole persisted configuration: the launch template and the
      targets. Targets is an immutable array that the actions reassign. */
  class ConfigRoot {
    var Exec: string
    var Targets: seq<TargetConfig>

    /** `new ConfigRoot()`: the default template and no targets. */
    constructor ()
      ensures Exec == DefaultExec && Targets == []
    {
      Exec := DefaultExec;
      Targets := [];
    }
  }

  /** The ids of a sequence of targets, in order. */
  function IdsOf(ts: seq<TargetConfig>): (ids: seq<int>)
    reads set t | t in ts
    ensures |ids| == |ts|
    ensures forall i :: 0 <= i < |ts| ==> ids[i] == ts[i].id
  {
    seq(|ts|, i requires 0 <= i < |ts| reads set t | t in ts => ts[i].id)
  }

  /** No two positions hold targets with the same id. This also rules out
      the same object appearing twice. */
  predicate DistinctIds(ts: seq<TargetConfig>)
    reads set t | t in ts
  {
    forall i, j :: 0 <= i < j < |ts| ==> ts[i].id != ts[j].id
  }

  /** The ids held by the targets other than `self` (compared by reference). */
  function OtherIds(ts: seq<TargetConfig>, self: TargetConfig?): set<int>
    reads set t | t in ts
  {
    set t | t in ts && t != self :: t.id
  }
}
