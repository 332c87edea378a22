/** The CPU list of cpus-common.c: CPUs are appended when they are realized
    and unlinked when they are unrealized, and a CPU that arrives without an
    index gets one more than the largest index in the list. Everything runs
    under `qemu_cpu_list_lock`, so each operation is one state transition. */
module CpuList {
  import opened Wrappers

  /** The index a CPU carries before the list assigns it one. */
  const UnassignedCpuIndex: int := -1

  /** The identity of a CPUState object (its address in the C code). */
  type Handle = nat

  /** The part of a CPUState the list looks at. */
  datatype Cpu = Cpu(handle: Handle, cpuIndex: int)

  /** The global `cpus` list and the sticky `cpu_index_auto_assigned` flag. */
  datatype Registry = Registry(cpus: seq<Cpu>, autoAssigned: bool)

  /** The failed `assert` that aborts `cpu_list_add`: a CPU with a
      preassigned index arrived after some CPU was numbered automatically. */
  datatype ListAbort = PreassignedAfterAutoAssign

  /** `QTAILQ_IN_USE(cpu, node)`: the CPU object is linked into the list. */
  predicate InList(cpus: seq<Cpu>, h: Handle) {
    exists i :: 0 <= i < |cpus| && cpus[i].handle == h
  }

  /** No CPU object is linked twice. */
  ghost predicate UniqueHandles(cpus: seq<Cpu>) {
    forall i, j :: 0 <= i < j < |cpus| ==> cpus[i].handle != cpus[j].handle
  }

  /** No two listed CPUs share an index. */
  ghost predicate DistinctIndexes(cpus: seq<Cpu>) {
    forall i, j :: 0 <= i < j < |cpus| ==> cpus[i].cpuIndex != cpus[j].cpuIndex
  }

  /** The scan of `cpu_get_free_index`, CPU by CPU in list order: starting
      from 0, every index at or above the running maximum raises it to that
      index plus one. The result is the least natural number above every
      listed index. */
  function FreeIndex(cpus: seq<Cpu>): (r: int)
    ensures r >= 0
    ensures forall i :: 0 <= i < |cpus| ==> cpus[i].cpuIndex < r
    ensures r == 0 || exists i :: 0 <= i < |cpus| && cpus[i].cpuIndex == r - 1
  {
    if cpus == [] then 0
    else
      var prefix := cpus[..|cpus| - 1];
      var m := FreeIndex(prefix);
      var last := cpus[|cpus| - 1];
      assert forall i :: 0 <= i < |prefix| ==> prefix[i] == cpus[i];
      if last.cpuIndex >= m then last.cpuIndex + 1 else m
  }

  /** `cpu_get_free_index`: sets the sticky flag and returns the free index. */
  function GetFreeIndex(reg: Registry): (r: (Registry, int))
    ensures r.0.cpus == reg.cpus && r.0.autoAssigned
    ensures r.1 >= 0 && r.1 != UnassignedCpuIndex
    ensures forall i :: 0 <= i < |reg.cpus| ==> reg.cpus[i].cpuIndex < r.1
    ensures r.1 == 0 || exists i :: 0 <= i < |reg.cpus| && reg.cpus[i].cpuIndex == r.1 - 1
    ensures r.1 == FreeIndex(reg.cpus)
  {
    (reg.(autoAssigned := true), FreeIndex(reg.cpus))
  }

  /** `cpu_list_add`: a CPU without an index is numbered with the free
      index; a CPU with an index is accepted only while no CPU has been
      numbered automatically. The CPU is then appended at the tail. */
  function Add(reg: Registry, cpu: Cpu): (r: Result<(Registry, Cpu), ListAbort>)
    ensures r.Failure? <==> cpu.cpuIndex != UnassignedCpuIndex && reg.autoAssigned
    ensures r.Success? ==> r.value.0.cpus == reg.cpus + [r.value.1] && r.value.1.handle == cpu.handle
    ensures r.Success? ==> r.value.1.cpuIndex != UnassignedCpuIndex
    ensures r.Success? && cpu.cpuIndex == UnassignedCpuIndex ==>
              r.value.0.autoAssigned
              && r.value.1.cpuIndex >= 0
              && r.value.1.cpuIndex == FreeIndex(reg.cpus)
              && forall i :: 0 <= i < |reg.cpus| ==> reg.cpus[i].cpuIndex < r.value.1.cpuIndex
    ensures r.Success? && cpu.cpuIndex != UnassignedCpuIndex ==>
              r.value.1 == cpu && !r.value.0.autoAssigned
  {
    if cpu.cpuIndex == UnassignedCpuIndex then
      var (reg', index) := GetFreeIndex(reg);
      var numbered := cpu.(cpuIndex := index);
      Success((reg'.(cpus := reg'.cpus + [numbered]), numbered))
    else if reg.autoAssigned then
      Failure(PreassignedAfterAutoAssign)
    else
      Success((reg.(cpus := reg.cpus + [cpu]), cpu))
  }

  /** The position of the first listed CPU with the given handle. */
  function IndexOf(cpus: seq<Cpu>, h: Handle): (i: nat)
    requires InList(cpus, h)
    ensures i < |cpus| && cpus[i].handle == h
    ensures forall j :: 0 <= j < i ==> cpus[j].handle != h
  {
    if cpus[0].handle == h then 0
    else
      var k :| 0 <= k < |cpus| && cpus[k].handle == h;
      assert cpus[1..][k - 1].handle == h;
      1 + IndexOf(cpus[1..], h)
  }

  /** `cpu_list_remove`: a CPU that is not in the list is left alone;
      otherwise it is unlinked and loses its index. */
  function Remove(reg: Registry, cpu: Cpu): (r: (Registry, Cpu))
    ensures r.0.autoAssigned == reg.autoAssigned
    ensures !InList(reg.cpus, cpu.handle) ==> r == (reg, cpu)
    ensures InList(reg.cpus, cpu.handle) ==>
              r.1 == cpu.(cpuIndex := UnassignedCpuIndex)
              && exists i :: 0 <= i < |reg.cpus| && reg.cpus[i].handle == cpu.handle
                             && r.0.cpus == reg.cpus[..i] + reg.cpus[i + 1..]
    ensures |r.0.cpus| == if InList(reg.cpus, cpu.handle) then |reg.cpus| - 1 else |reg.cpus|
  {
    if !InList(reg.cpus, cpu.handle) then (reg, cpu)
    else
      var i := IndexOf(reg.cpus, cpu.handle);
      (reg.(cpus := reg.cpus[..i] + reg.cpus[i + 1..]), cpu.(cpuIndex := UnassignedCpuIndex))
  }

  /** Cutting position `i` out of a list shifts the later entries down by one. */
  lemma CutShifts(cpus: seq<Cpu>, i: nat, rest: seq<Cpu>)
    requires i < |cpus| && rest == cpus[..i] + cpus[i + 1..]
    ensures |rest| == |cpus| - 1
    ensures forall k :: 0 <= k < i ==> rest[k] == cpus[k]
    ensures forall k :: i < k < |cpus| ==> rest[k - 1] == cpus[k]
  {
  }

  /** Removing a linked CPU really unlinks it, and the others stay linked
      exactly once. */
  lemma RemoveUnlinks(reg: Registry, cpu: Cpu)
    requires UniqueHandles(reg.cpus)
    ensures UniqueHandles(Remove(reg, cpu).0.cpus)
    ensures !InList(Remove(reg, cpu).0.cpus, cpu.handle)
    ensures forall h :: h != cpu.handle ==> (InList(Remove(reg, cpu).0.cpus, h) <==> InList(reg.cpus, h))
  {
    if InList(reg.cpus, cpu.handle) {
      var cpus := reg.cpus;
      var i := IndexOf(cpus, cpu.handle);
      var rest := cpus[..i] + cpus[i + 1..];
      assert Remove(reg, cpu).0.cpus == rest;
      CutShifts(cpus, i, rest);
      forall a, b | 0 <= a < b < |rest|
        ensures rest[a].handle != rest[b].handle
      {
        assert rest[a] == Orig(cpus, i, a) && rest[b] == Orig(cpus, i, b);
      }
      forall k | 0 <= k < |rest|
        ensures rest[k].handle != cpu.handle
      {
        assert rest[k] == Orig(cpus, i, k);
      }
      forall h | h != cpu.handle && InList(cpus, h)
        ensures InList(rest, h)
      {
        var k :| 0 <= k < |cpus| && cpus[k].handle == h;
        if k < i {
          assert rest[k] == cpus[k];
        } else {
          assert rest[k - 1] == cpus[k];
        }
      }
      forall h | InList(rest, h)
        ensures InList(cpus, h)
      {
        var k :| 0 <= k < |rest| && rest[k].handle == h;
        assert rest[k] == Orig(cpus, i, k);
      }
    }
  }

  /** The entry of the original list that position `k` of the list with
      position `i` cut out holds. */
  function Orig(cpus: seq<Cpu>, i: nat, k: nat): Cpu
    requires i < |cpus| && k < |cpus| - 1
  {
    if k < i then cpus[k] else cpus[k + 1]
  }

  /** Adding a CPU that is not linked yet keeps every CPU linked once. */
  lemma AddKeepsHandlesUnique(reg: Registry, cpu: Cpu)
    requires UniqueHandles(reg.cpus) && !InList(reg.cpus, cpu.handle)
    ensures Add(reg, cpu).Success? ==> UniqueHandles(Add(reg, cpu).value.0.cpus)
  {
  }

  /** Automatic numbering never creates a duplicate index. */
  lemma AutoAddKeepsIndexesDistinct(reg: Registry, cpu: Cpu)
    requires DistinctIndexes(reg.cpus) && cpu.cpuIndex == UnassignedCpuIndex
    ensures DistinctIndexes(Add(reg, cpu).value.0.cpus)
  {
  }

  /** `cpu_list_remove` undoes `cpu_list_add`: the list is back as it was
      and the CPU is unassigned again; only the sticky flag remembers. */
  lemma RemoveUndoesAdd(reg: Registry, cpu: Cpu)
    requires !InList(reg.cpus, cpu.handle)
    requires Add(reg, cpu).Success?
    ensures var (reg', added) := Add(reg, cpu).value;
            Remove(reg', added) == (reg'.(cpus := reg.cpus), cpu.(cpuIndex := UnassignedCpuIndex))
  {
    var (reg', added) := Add(reg, cpu).value;
    assert reg'.cpus[|reg.cpus|].handle == cpu.handle;
    assert InList(reg'.cpus, added.handle);
    var i := IndexOf(reg'.cpus, added.handle);
    assert i == |reg.cpus|;
    assert reg'.cpus[..i] == reg.cpus;
    assert reg'.cpus[i + 1..] == [];
    assert reg.cpus + [] == reg.cpus;
  }

  /** A step of CPU hotplug: realize or unrealize a CPU. */
  datatype ListOp = AddCpu(cpu: Cpu) | RemoveCpu(cpu: Cpu)

  /** Runs the operations in order, stopping at the first failed assertion. */
  function RunOps(reg: Registry, ops: seq<ListOp>): Result<Registry, ListAbort>
    decreases ops
  {
    if ops == [] then Success(reg)
    else
      var next := match ops[0]
        case AddCpu(cpu) => (match Add(reg, cpu) case Success(v) => Success(v.0) case Failure(e) => Failure(e))
        case RemoveCpu(cpu) => Success(Remove(reg, cpu).0);
      match next
      case Failure(e) => Failure(e)
      case Success(reg') => RunOps(reg', ops[1..])
  }

  /** Once some CPU was numbered automatically, no sequence of additions and
      removals clears `cpu_index_auto_assigned`, and from then on only CPUs
      without an index can be added. */
  lemma {:induction false} AutoAssignedIsSticky(reg: Registry, ops: seq<ListOp>)
    requires reg.autoAssigned
    decreases ops
    ensures RunOps(reg, ops).Success? ==> RunOps(reg, ops).value.autoAssigned
    ensures RunOps(reg, ops).Success? ==>
              forall k :: 0 <= k < |ops| && ops[k].AddCpu? ==> ops[k].cpu.cpuIndex == UnassignedCpuIndex
  {
    if ops != [] {
      match ops[0]
      case AddCpu(cpu) =>
        if Add(reg, cpu).Success? {
          AutoAssignedIsSticky(Add(reg, cpu).value.0, ops[1..]);
          assert forall k :: 1 <= k < |ops| ==> ops[k] == ops[1..][k - 1];
        }
      case RemoveCpu(cpu) =>
        AutoAssignedIsSticky(Remove(reg, cpu).0, ops[1..]);
        assert forall k :: 1 <= k < |ops| ==> ops[k] == ops[1..][k - 1];
    }
  }
}
