/** The simulated machine: sizes, bytes, accesses and the flat memory it is meant to look like. */
module Machine {
  const FRAME_SIZE: nat := 16
  const PAGE_SIZE: nat := 4096
  const ADDRESS_LIMIT: nat := 0x1_0000_0000_0000 // virtual addresses have 48 bits
  const INVALID_SWAP: int := -1
  const MAX_FRAMES: nat := 0x1000_0000 // frames whose bytes an unsigned int can address

  type Byte = x: int | 0 <= x < 256

  datatype Kind = Store | Modify | Load | Fetch

  datatype Access = Access(kind: Kind, address: nat, value: Byte)

  predicate IsWrite(a: Access) {
    a.kind.Store? || a.kind.Modify?
  }

  function PageOf(a: Access): nat {
    a.address / PAGE_SIZE
  }

  function OffsetOf(a: Access): nat {
    a.address % PAGE_SIZE
  }

  /** Traces keep to 48-bit addresses and to the offsets that fit a simulated frame. */
  predicate InTrace(a: Access) {
    a.address < ADDRESS_LIMIT && OffsetOf(a) < FRAME_SIZE
  }

  // ----- flat memory -----

  /** A byte never stored reads as zero. */
  function ByteAt(flat: map<nat, Byte>, address: nat): Byte {
    if address in flat then flat[address] else 0
  }

  /** A store or a modify leaves its value at its address; a load or a fetch leaves everything as it is. */
  function FlatStep(flat: map<nat, Byte>, a: Access): map<nat, Byte> {
    match a.kind
    case Store => flat[a.address := a.value]
    case Modify => flat[a.address := a.value]
    case Load => flat
    case Fetch => flat
  }

  lemma FlatKinds(flat: map<nat, Byte>, a: Access)
    ensures a.kind == Store || a.kind == Modify ==> ByteAt(FlatStep(flat, a), a.address) == a.value
    ensures forall x | x != a.address :: ByteAt(FlatStep(flat, a), x) == ByteAt(flat, x)
    ensures a.kind == Load || a.kind == Fetch ==> FlatStep(flat, a) == flat
  {}

  /** What each access of a trace finds, or leaves, at its address. */
  function FlatRun(flat: map<nat, Byte>, trace: seq<Access>): (bytes: seq<Byte>)
    ensures |bytes| == |trace|
    decreases |trace|
  {
    if trace == [] then []
    else
      var flat' := FlatStep(flat, trace[0]);
      [ByteAt(flat', trace[0].address)] + FlatRun(flat', trace[1..])
  }
}
