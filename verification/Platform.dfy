/** The services underneath the firmware updater: the heap, the flash driver and the partition
    table of ESP-IDF. Every fallible call consumes one tick of `Device.tick`, and the oracle
    `Env.ok` says whether the call made at that tick succeeds; a theorem for all `Env` therefore
    covers every pattern of failures. A failing call changes nothing. Bytes are `char`s. */
module Platform {

  const WORD := 0x1_0000_0000 // uint32_t and size_t wrap here

  /** Application partitions, by label. */
  datatype Partition = Factory | Ota0 | Ota1 | Other

  datatype FlashOp =
    | Begun(part: Partition)                 // esp_ota_begin: the partition is erased
    | Wrote(part: Partition, block: string)  // esp_ota_write
    | Ended(part: Partition)                 // esp_ota_end
    | Activated(part: Partition)             // esp_ota_set_boot_partition

  datatype Option<+T> = None | Some(value: T)

  datatype Pointer = Null | Block(id: nat)

  datatype Env = Env(ok: nat -> bool, address: Partition -> nat, initial: Partition -> seq<string>)

  /** `live` are the heap blocks not yet freed, `fault` records undefined behaviour (a double free
      or an access through a pointer that is not live), `ops` is the flash driver's history. */
  datatype Device = Device(tick: nat, live: set<nat>, fault: bool, boot: Partition, ops: seq<FlashOp>)

  function Malloc(env: Env, d: Device): (Device, Pointer) {
    if env.ok(d.tick) then (d.(tick := d.tick + 1, live := d.live + {d.tick}), Block(d.tick))
    else (d.(tick := d.tick + 1), Null)
  }

  function Free(d: Device, p: Pointer): Device {
    match p
    case Null => d
    case Block(id) => if id in d.live then d.(live := d.live - {id}) else d.(fault := true)
  }

  predicate Allocated(d: Device, p: Pointer) {
    p.Block? && p.id in d.live
  }

  /** One fallible driver call that appends `op` to the history when it succeeds. A call made
      through no handle at all is refused. */
  function Call(env: Env, d: Device, part: Option<Partition>, op: Partition -> FlashOp): (Device, bool) {
    if part.Some? && env.ok(d.tick)
    then (d.(tick := d.tick + 1, ops := d.ops + [op(part.value)]), true)
    else (d.(tick := d.tick + 1), false)
  }

  function SetBoot(env: Env, d: Device, part: Option<Partition>): (Device, bool) {
    var (d', ok) := Call(env, d, part, p => Activated(p));
    (if ok then d'.(boot := part.value) else d', ok)
  }

  /** What a partition holds after a history: the blocks written since it was last erased. */
  ghost function Contents(env: Env, ops: seq<FlashOp>, p: Partition): seq<string> {
    if ops == [] then env.initial(p) else
      var before := Contents(env, ops[..|ops| - 1], p);
      match ops[|ops| - 1]
      case Begun(q) => if q == p then [] else before
      case Wrote(q, block) => if q == p then before + [block] else before
      case Ended(_) => before
      case Activated(_) => before
  }
}
