/** The shared-memory sizing of the multi-instance IPC library
    (multi_instance.h). Each instance occupies, from its base address, a
    status word, two areas of rpmsg buffers and two vrings laid out as the
    split virtqueues of VIRTIO 1.0, section 2.4: a descriptor table
    (16 bytes per descriptor), an available ring (a 4-byte header, 2 bytes
    per entry, a 2-byte event word), padding up to the alignment, and a used
    ring (a 4-byte header, 8 bytes per entry, a 2-byte event word). */
module MultiInstanceH {
  import opened Base

  const VRING_ALIGNMENT: nat := 4
  const VDEV_STATUS_SIZE: nat := 4
  /** The size of one rpmsg buffer of the OpenAMP configuration used. */
  const RPMSG_BUFFER_SIZE: nat := 512

  const DESC_SIZE: nat := 16        // sizeof(struct vring_desc)
  const AVAIL_HEADER: nat := 4      // sizeof(struct vring_avail)
  const USED_HEADER: nat := 4       // sizeof(struct vring_used)
  const USED_ELEM_SIZE: nat := 8    // sizeof(struct vring_used_elem)
  const U16_SIZE: nat := 2          // sizeof(uint16_t)

  /** VRING_ALIGN for a power-of-two alignment: the mask with ~(align - 1)
      clears the remainder modulo align. */
  function AlignUp(size: nat, align: nat): (r: nat)
    requires 0 < align
    ensures size <= r < size + align
  {
    (size + align - 1) - (size + align - 1) % align
  }

  /** With the library's alignment of 4, VRING_ALIGN gives the least
      multiple of 4 that is at least the size. */
  lemma AlignUpLeast(size: nat)
    ensures AlignUp(size, VRING_ALIGNMENT) % VRING_ALIGNMENT == 0
    ensures size <= AlignUp(size, VRING_ALIGNMENT) < size + VRING_ALIGNMENT
    ensures forall m :: size <= m * VRING_ALIGNMENT ==> AlignUp(size, VRING_ALIGNMENT) <= m * VRING_ALIGNMENT
  {
  }

  /** Alignment never moves a larger size below a smaller one. */
  lemma AlignUpMonotone(s: nat, t: nat)
    requires s <= t
    ensures AlignUp(s, VRING_ALIGNMENT) <= AlignUp(t, VRING_ALIGNMENT)
  {
    AlignUpLeast(s);
    AlignUpLeast(t);
    var q := AlignUp(t, VRING_ALIGNMENT) / VRING_ALIGNMENT;
    assert AlignUp(t, VRING_ALIGNMENT) == q * VRING_ALIGNMENT;
  }

  /** VRING_DESC_SIZEOF, VRING_AVAIL_SIZEOF, VRING_USED_SIZEOF and
      VRING_FIRST_SUM. */
  function DescSize(num: nat): nat { num * DESC_SIZE }
  function AvailSize(num: nat): nat { AVAIL_HEADER + num * U16_SIZE + U16_SIZE }
  function UsedSize(num: nat): nat { USED_HEADER + num * USED_ELEM_SIZE + U16_SIZE }
  function FirstSum(num: nat): nat { DescSize(num) + AvailSize(num) }

  /** VRING_SIZE_COMPUTE with VRING_ALIGNMENT: the bytes of one vring, whose
      used ring starts aligned after the descriptor table and the available
      ring. */
  function VringSize(num: nat): (r: nat)
  {
    AlignUp(FirstSum(num), VRING_ALIGNMENT) + UsedSize(num)
  }

  /** The used ring of a vring starts on an aligned offset past the other two
      parts, and ends the vring. */
  lemma VringLayout(num: nat)
    ensures var usedAt := AlignUp(FirstSum(num), VRING_ALIGNMENT);
            usedAt % VRING_ALIGNMENT == 0 && DescSize(num) + AvailSize(num) <= usedAt &&
            usedAt < FirstSum(num) + VRING_ALIGNMENT && usedAt + UsedSize(num) == VringSize(num)
  {
    AlignUpLeast(FirstSum(num));
  }

  /** VIRTQUEUE_SIZE_GET: the rpmsg buffers of one direction. */
  function VirtqueueSize(num: nat): nat { RPMSG_BUFFER_SIZE * num }

  /** SHMEM_INST_SIZE_GET: status word, both buffer areas, both vrings. */
  function InstSize(num: nat): (r: nat)
    ensures r >= VDEV_STATUS_SIZE + 2 * VirtqueueSize(num) + 2 * (FirstSum(num) + UsedSize(num))
  {
    VDEV_STATUS_SIZE + 2 * VirtqueueSize(num) + 2 * VringSize(num)
  }

  /** A longer vring needs strictly more shared memory per instance. */
  lemma InstSizeIncreasing(n: nat, m: nat)
    requires n < m
    ensures InstSize(n) < InstSize(m)
  {
    AlignUpMonotone(FirstSum(n), FirstSum(m));
  }

  /** SHMEM_CONSUMED_SIZE_GET for `count` instances (IPC_INSTANCE_COUNT of
      the build). */
  function ConsumedSize(count: nat, num: nat): nat { count * InstSize(num) }

  /** VRING_SIZE_GET: the largest of 32, 16, 8, 4 and 2 whose consumption
      stays strictly below the shared memory size, and 1 when none does. */
  function VringSizeGet(count: nat, shmemSize: nat): (r: nat)
    ensures r in {1, 2, 4, 8, 16, 32}
  {
    if ConsumedSize(count, 32) < shmemSize then 32
    else if ConsumedSize(count, 16) < shmemSize then 16
    else if ConsumedSize(count, 8) < shmemSize then 8
    else if ConsumedSize(count, 4) < shmemSize then 4
    else if ConsumedSize(count, 2) < shmemSize then 2
    else 1
  }

  /** The candidate sizes VRING_SIZE_GET tries, largest first. */
  const CANDIDATES: seq<nat> := [32, 16, 8, 4, 2]

  /** VRING_SIZE_GET yields 1 or a candidate that fits, and every larger
      candidate does not fit; the fallback 1 is chosen only when no
      candidate fits, and is not itself checked against the size. */
  lemma VringSizeGetChoice(count: nat, shmemSize: nat)
    ensures var r := VringSizeGet(count, shmemSize);
            (r == 1 || r in CANDIDATES) &&
            (r != 1 ==> ConsumedSize(count, r) < shmemSize) &&
            (forall i :: 0 <= i < |CANDIDATES| && CANDIDATES[i] > r ==> shmemSize <= ConsumedSize(count, CANDIDATES[i])) &&
            (r == 1 <==> forall i :: 0 <= i < |CANDIDATES| ==> shmemSize <= ConsumedSize(count, CANDIDATES[i]))
  {
  }

  /** SHMEM_INST_ADDR_GET: instance id starts after id whole instances. */
  function InstAddr(shmemAddr: nat, num: nat, id: nat): (r: nat)
    ensures shmemAddr <= r && (0 < id ==> shmemAddr + InstSize(num) <= r)
  {
    shmemAddr + id * InstSize(num)
  }

  /** Instances follow one another without gap. */
  lemma InstAddrContiguous(shmemAddr: nat, num: nat, id: nat)
    ensures InstAddr(shmemAddr, num, id + 1) == InstAddr(shmemAddr, num, id) + InstSize(num)
  {
    assert (id + 1) * InstSize(num) == id * InstSize(num) + InstSize(num);
  }

  /** An instance ends no later than any later instance begins: the
      instances never overlap. */
  lemma {:induction false} InstancesDisjoint(shmemAddr: nat, num: nat, i: nat, j: nat)
    requires i < j
    ensures InstAddr(shmemAddr, num, i) + InstSize(num) <= InstAddr(shmemAddr, num, j)
    decreases j - i
  {
    InstAddrContiguous(shmemAddr, num, i);
    if i + 1 < j {
      InstancesDisjoint(shmemAddr, num, i + 1, j);
    }
  }

  /** SHMEM_INST_SIZE_AUTOALLOC_GET and SHMEM_INST_ADDR_AUTOALLOC_GET: the
      layout for the vring size VRING_SIZE_GET picks. */
  function AutoallocInstSize(count: nat, shmemSize: nat): (r: nat)
    ensures VringSizeGet(count, shmemSize) != 1 ==> count * r < shmemSize
  {
    VringSizeGetChoice(count, shmemSize);
    InstSize(VringSizeGet(count, shmemSize))
  }

  function AutoallocInstAddr(shmemAddr: nat, count: nat, shmemSize: nat, id: nat): (r: nat)
    ensures shmemAddr <= r && (0 < id ==> shmemAddr + AutoallocInstSize(count, shmemSize) <= r)
  {
    InstAddr(shmemAddr, VringSizeGet(count, shmemSize), id)
  }

  /** Unless it fell back to 1, the automatic layout places every one of the
      `count` instances inside the shared memory. */
  lemma {:induction false} AutoallocFits(shmemAddr: nat, count: nat, shmemSize: nat, id: nat)
    requires id < count && VringSizeGet(count, shmemSize) != 1
    ensures AutoallocInstAddr(shmemAddr, count, shmemSize, id) + AutoallocInstSize(count, shmemSize) < shmemAddr + shmemSize
  {
    var n := VringSizeGet(count, shmemSize);
    VringSizeGetChoice(count, shmemSize);
    InstAddrContiguous(shmemAddr, n, id);
    MulMonotone(id + 1, count, InstSize(n));
  }

  /** Multiplication by a natural number keeps the order. */
  lemma MulMonotone(a: nat, b: nat, c: nat)
    requires a <= b
    ensures a * c <= b * c
  {
    assert b * c == a * c + (b - a) * c;
  }

  /** RPMSG_ADDR_ANY. */
  const ADDR_ANY: u32 := 0xFFFF_FFFF

  /** A callback, named by the function it points to. */
  type Callback = nat

  /** struct ipc_ept_t: the two addresses of its rpmsg endpoint, the
      callback and its argument, and the two bits of its flags word the
      library uses, EP_FLAG_HANSHAKE_DONE (bit 0) and EP_FLAG_USED (bit 1). */
  datatype Endpoint = Endpoint(addr: u32, dest: u32, cb: Option<Callback>, arg: nat, handshakeDone: bool, used: bool)

  /** The shared-memory fields of struct ipc_inst_t: the status register,
      the local region handed to libmetal, and the two vrings. */
  datatype ShmLayout = ShmLayout(statusReg: u32, localStart: u32, localSize: u32, vringRx: u32, vringTx: u32)

  /** struct ipc_inst_t, as far as this library itself computes it, with
      IPC_FLAG_USED (bit 1 of its flags word) as `used`. */
  datatype Instance = Instance(irqCb: Option<Callback>, arg: nat, shmem: ShmLayout, used: bool)

  /** Zero-initialised statics. */
  const ZERO_ENDPOINT: Endpoint := Endpoint(0, 0, None, 0, false, false)
  const ZERO_INSTANCE: Instance := Instance(None, 0, ShmLayout(0, 0, 0, 0, 0), false)

  /** The int a uint32_t becomes on the 32-bit two's-complement target. */
  function AsInt(x: u32): (r: int)
    ensures -0x8000_0000 <= r < 0x8000_0000
    ensures x < 0x8000_0000 ==> r == x
  {
    if x < 0x8000_0000 then x else x - U32_LIMIT
  }

  /** ipc_ept_num_get: -EINVAL without an endpoint, otherwise the endpoint's
      address read as an int. */
  function EptNumGet(ept: Option<Endpoint>): (r: int)
    ensures -0x8000_0000 <= r < 0x8000_0000
  {
    match ept
    case None => -EINVAL
    case Some(e) => AsInt(e.addr)
  }

  /** An endpoint's address comes back as it is while it is below 2^31; an
      endpoint at RPMSG_ADDR_ANY yields -1, and no endpoint yields -EINVAL. */
  lemma EptNumGetCases(ept: Option<Endpoint>)
    ensures ept.None? ==> EptNumGet(ept) == -EINVAL
    ensures ept.Some? && ept.value.addr < 0x8000_0000 ==> EptNumGet(ept) == ept.value.addr
    ensures ept.Some? && ept.value.addr == ADDR_ANY ==> EptNumGet(ept) == -1
  {
  }
}
