/** The packet record that owns its buffers, over an allocator that knows which blocks are live. */
module PacketContent {

  type Byte = x: int | 0 <= x < 256

  datatype ProType = ICMP | IGMP | TCP | UDP | ERR

  /** The plain fields of a packet record. Addresses stand as the four bytes they have in memory,
      dotted addresses as C strings. */
  datatype Fields = Fields(
    protype: ProType, tmSec: int, tmUsec: int, srcPort: nat, dstPort: nat, ipId: nat, ipOffset: nat,
    ipSrc: seq<Byte>, ipDst: seq<Byte>, srcIp: string, dstIp: string, seqNo: nat, ackNo: nat)

  const NO_FIELDS :=
    Fields(ERR, 0, 0, 0, 0, 0, 0, [0, 0, 0, 0], [0, 0, 0, 0], "", "", 0, 0)

  /** What `acInit` leaves: the time stamp, identification and offset survive. */
  function Wiped(f: Fields): Fields {
    NO_FIELDS.(tmSec := f.tmSec, tmUsec := f.tmUsec, ipId := f.ipId, ipOffset := f.ipOffset)
  }

  /** A new record has no fields set, and is of no protocol. */
  lemma NoFieldsAre()
    ensures var f := NO_FIELDS;
            && f.protype == ERR && f.tmSec == f.tmUsec == 0 && f.srcPort == f.dstPort == 0
            && f.ipId == f.ipOffset == 0 && f.ipSrc == f.ipDst == [0, 0, 0, 0]
            && f.srcIp == f.dstIp == "" && f.seqNo == f.ackNo == 0
  {}

  /** Field by field: time stamp, identification and offset are kept, all else is cleared. */
  lemma WipedIs(f: Fields)
    ensures var w := Wiped(f);
            && w.tmSec == f.tmSec && w.tmUsec == f.tmUsec && w.ipId == f.ipId && w.ipOffset == f.ipOffset
            && w.protype == ERR && w.srcPort == w.dstPort == 0 && w.ipSrc == w.ipDst == [0, 0, 0, 0]
            && w.srcIp == w.dstIp == "" && w.seqNo == w.ackNo == 0
  {}

  /** A packet as a value. */
  datatype Packet = Packet(src: seq<Byte>, anal: seq<Byte>, fields: Fields)

  /** A block from `malloc`. */
  class Block {
    /** The record whose pointer the block was allocated for. */
    ghost const owner: AnalContent
    var bytes: seq<Byte>

    constructor (ghost owner: AnalContent, bytes: seq<Byte>)
      ensures this.owner == owner && this.bytes == bytes
    {
      this.owner, this.bytes := owner, bytes;
    }
  }

  class Allocator {
    ghost var live: set<Block>
    /** The packet records now in existence. */
    ghost var records: set<AnalContent>

    constructor ()
      ensures live == {} && records == {} && Sound()
    {
      live, records := {}, {};
    }

    /** Every live block is the buffer of exactly one existing record, and every pointer of an
        existing record is null or a live block: no leak and nothing dangling. */
    ghost predicate Sound()
      reads this, records, live
    {
      && (forall b :: b in live ==> b.owner in records && b in b.owner.Owned())
      && (forall r :: r in records ==> r.heap == this && r.Valid())
    }

    /** A block is live exactly when some existing record points at it, and then only one does. */
    lemma OneOwner(b: Block)
      requires Sound()
      ensures b in live <==> exists r :: r in records && b in r.Owned()
      ensures forall r, q :: r in records && q in records && b in r.Owned() && b in q.Owned() ==> r == q
    {
      forall r | r in records && b in r.Owned() ensures b in live && r == b.owner {
        assert r.Valid();
      }
      if b in live { assert b.owner in records && b in b.owner.Owned(); }
    }

    /** A new record, or one that swaps its buffers for fresh ones, leaves the heap sound. */
    twostate lemma StaysSound(new ac: AnalContent, before: set<Block>)
      requires old(Sound()) && ac.heap == this && ac.Valid() && fresh(ac.Owned())
      requires records == old(records) + {ac} && live == old(live) - before + ac.Owned()
      requires forall b :: b in old(live) && b !in before ==> b.owner != ac
      requires forall b :: b in before ==> b.owner == ac
      requires forall r :: r in old(records) && r != ac ==> unchanged(r)
      requires forall b :: b in old(live) ==> unchanged(b)
      ensures Sound()
    {
      forall r | r in records ensures r.heap == this && r.Valid() {
        if r != ac { assert old(r.Valid()); }
      }
      forall b | b in live ensures b.owner in records && b in b.owner.Owned() {
        if b !in ac.Owned() { assert b in old(live) && b in old(b.owner.Owned()); }
      }
    }

    /** `malloc` and `memcpy` of the given bytes; allocation succeeds. */
    method Malloc(ghost owner: AnalContent, bytes: seq<Byte>) returns (p: Block)
      modifies this`live
      ensures fresh(p) && p.owner == owner && p.bytes == bytes && live == old(live) + {p}
    {
      p := new Block(owner, bytes);
      live := live + {p};
    }

    /** `free` of a block, which must be live. */
    method Free(p: Block)
      requires p in live
      modifies this`live
      ensures live == old(live) - {p}
    {
      live := live - {p};
    }
  }

  class AnalContent {
    const heap: Allocator
    var src: Block?
    var srcLen: nat
    var anal: Block?
    var analLen: nat
    var fields: Fields

    ghost function Owned(): set<Block>
      reads this
    {
      Buffer(src) + Buffer(anal)
    }

    /** Both pointers are null or hold a live block of the recorded length, each its own. */
    ghost predicate Valid()
      reads this, heap, heap.live
    {
      && (src == null ==> srcLen == 0)
      && (src != null ==> src in heap.live && src.owner == this && |src.bytes| == srcLen)
      && (anal == null ==> analLen == 0)
      && (anal != null ==> anal in heap.live && anal.owner == this && |anal.bytes| == analLen && anal != src)
    }

    ghost function Value(): Packet
      reads this, Owned()
    {
      Packet(Bytes(src), Bytes(anal), fields)
    }

    constructor (heap: Allocator)
      requires heap.Sound()
      modifies heap`records
      ensures this.heap == heap && heap.Sound() && heap.records == old(heap.records) + {this}
      ensures Owned() == {} && Value() == Packet([], [], NO_FIELDS)
    {
      this.heap := heap;
      src, srcLen, anal, analLen := null, 0, null, 0;
      fields := NO_FIELDS;
      new;
      heap.records := heap.records + {this};
    }

    /** A captured packet: a copy of its bytes and its time stamp. */
    constructor FromCapture(heap: Allocator, tmSec: int, tmUsec: int, bytes: seq<Byte>)
      requires heap.Sound()
      modifies heap
      ensures this.heap == heap && heap.Sound() && heap.records == old(heap.records) + {this}
      ensures Value() == Packet(bytes, [], NO_FIELDS.(tmSec := tmSec, tmUsec := tmUsec))
      ensures fresh(Owned()) && heap.live == old(heap.live) + Owned()
      ensures src != null && anal == null && analLen == 0
    {
      this.heap := heap;
      srcLen, anal, analLen := |bytes|, null, 0;
      fields := NO_FIELDS.(tmSec := tmSec, tmUsec := tmUsec);
      new;
      hide Allocator.Sound;
      src := heap.Malloc(this, bytes);
      heap.records := heap.records + {this};
      heap.StaysSound(this, {});
    }

    twostate lemma RecordsAreValid(other: AnalContent)
      requires old(heap.Sound()) && this in old(heap.records) && other in old(heap.records)
      ensures old(Valid()) && old(other.Valid()) && heap == other.heap
      ensures other != this ==> old(Owned()) !! old(other.Owned())
      ensures forall b :: b in old(heap.live) && b !in old(Owned()) ==> b.owner != this
    {}

    /** Frees the buffer behind `p` when there is one. */
    method Release(p: Block?)
      requires p != null ==> p in heap.live
      modifies heap`live
      ensures heap.live == old(heap.live) - {p}
    {
      if p != null { heap.Free(p); }
    }

    ghost function Bytes(p: Block?): seq<Byte>
      reads p
    {
      if p == null then [] else p.bytes
    }

    function Buffer(p: Block?): set<Block> { if p == null then {} else {p} }

    /** One half of `operator=`: frees the old buffer and copies the other record's, if it has
        bytes, into a block of its own. */
    method Replace(mine: Block?, theirs: Block?, len: nat) returns (p: Block?)
      requires (mine != null ==> mine in heap.live) && (theirs != null ==> theirs in heap.live && theirs != mine)
      requires (theirs == null ==> len == 0) && (theirs != null ==> |theirs.bytes| == len)
      modifies heap`live
      ensures heap.live == old(heap.live) - Buffer(mine) + Buffer(p) && fresh(Buffer(p))
      ensures if len == 0 then p == null else p != null && p.owner == this && p.bytes == theirs.bytes
      ensures Bytes(p) == old(Bytes(theirs))
    {
      Release(mine);
      p := null;
      if len != 0 { p := heap.Malloc(this, theirs.bytes); }
    }

    /** The destructor: the record is gone and took its buffers along. */
    method Destroy()
      requires heap.Sound() && this in heap.records
      modifies heap
      ensures heap.Sound() && heap.records == old(heap.records) - {this}
      ensures heap.live == old(heap.live) - old(Owned())
    {
      Release(src);
      Release(anal);
      heap.records := heap.records - {this};
    }

    method CopySrc(other: AnalContent)
      requires Valid() && other.Valid() && heap == other.heap && Owned() !! other.Owned()
      modifies this`src, this`srcLen, heap`live
      ensures heap.live == old(heap.live) - old(Buffer(src)) + Buffer(src) && fresh(Buffer(src))
      ensures (src == null ==> srcLen == 0) && (src != null ==> src.owner == this && |src.bytes| == srcLen)
      ensures Bytes(src) == old(Bytes(other.src))
    {
      src := Replace(src, other.src, other.srcLen);
      srcLen := other.srcLen;
    }

    method CopyAnal(other: AnalContent)
      requires anal != null ==> anal in heap.live
      requires other.Valid() && heap == other.heap && Buffer(anal) !! other.Owned()
      modifies this`anal, this`analLen, heap`live
      ensures heap.live == old(heap.live) - old(Buffer(anal)) + Buffer(anal) && fresh(Buffer(anal))
      ensures (anal == null ==> analLen == 0) && (anal != null ==> anal.owner == this && |anal.bytes| == analLen)
      ensures Bytes(anal) == old(Bytes(other.anal))
    {
      anal := Replace(anal, other.anal, other.analLen);
      analLen := other.analLen;
    }

    method CopyBuffers(other: AnalContent)
      requires Valid() && other.Valid() && other != this && heap == other.heap && Owned() !! other.Owned()
      modifies this`src, this`srcLen, this`anal, this`analLen, heap`live
      ensures heap.live == old(heap.live) - old(Owned()) + Owned()
      ensures Valid() && fresh(Owned())
      ensures Bytes(src) == old(Bytes(other.src)) && Bytes(anal) == old(Bytes(other.anal))
    {
      CopySrc(other);
      CopyAnal(other);
    }

    /** `operator=`: a deep copy of another record. */
    method Assign(other: AnalContent)
      requires heap.Sound() && this in heap.records && other in heap.records && other != this
      modifies this, heap`live
      ensures heap.Sound() && Value() == old(other.Value())
      ensures fresh(Owned()) && heap.live == old(heap.live) - old(Owned()) + Owned()
    {
      RecordsAreValid(other);
      hide Allocator.Sound;
      CopyBuffers(other);
      fields := other.fields;
      heap.StaysSound(this, old(Owned()));
    }

    method AcInit()
      requires heap.Sound() && this in heap.records
      modifies this, heap`live
      ensures heap.Sound() && Value() == Packet([], [], Wiped(old(fields)))
      ensures Owned() == {} && heap.live == old(heap.live) - old(Owned())
    {
      RecordsAreValid(this);
      hide Allocator.Sound;
      Release(src);
      src, srcLen := null, 0;
      Release(anal);
      anal, analLen := null, 0;
      fields := Wiped(fields);
      heap.StaysSound(this, old(Owned()));
    }
  }
}
