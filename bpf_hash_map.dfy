/**
  The update and delete semantics of a `BPF_MAP_TYPE_HASH` map created with
  `with_max_entries(1024, 0)`, as `HashMap::insert(.., 0)` (flag `BPF_ANY`)
  and `HashMap::remove` see them.
 */
module BpfHashMap {
  import opened Wrappers
  import opened MachineInts

  /** Capacity of both `INFLIGHT_EVENTS` and `PID_TO_ID`. */
  const MAX_ENTRIES: nat := 1024

  const ENOENT: int := 2
  const E2BIG: int := 7

  /**
    Update under `BPF_ANY`: an existing key is overwritten, a new key is
    added while there is room, and a new key for a full map is refused
    with `-E2BIG`.
   */
  function Update<K, V>(m: map<K, V>, k: K, v: V): (r: Result<map<K, V>, i64>)
    ensures r.Success? <==> k in m || |m| < MAX_ENTRIES
    ensures r.Success? ==> r.value == m[k := v]
    ensures r.Failure? ==> r.error == -E2BIG && k !in m
    ensures |m| <= MAX_ENTRIES && r.Success? ==> |r.value| <= MAX_ENTRIES
  {
    if k in m || |m| < MAX_ENTRIES then Success(m[k := v]) else Failure(-E2BIG)
  }

  /** Delete: removes a present key, refuses an absent one with `-ENOENT`. */
  function Delete<K, V>(m: map<K, V>, k: K): (r: Result<map<K, V>, i64>)
    ensures r.Success? <==> k in m
    ensures r.Success? ==> r.value.Keys == m.Keys - {k}
    ensures r.Success? ==> forall j :: j in r.value ==> r.value[j] == m[j]
    ensures r.Success? ==> |r.value| == |m| - 1
    ensures r.Failure? ==> r.error == -ENOENT
  {
    if k in m then Success(m - {k}) else Failure(-ENOENT)
  }
}
