/** Model of `ProofOutputs` and `ConsensusProofOutputs` in `types.rs`: the fixed-width byte layouts of the
    proofs' public outputs. */
module OutputCodec {
  import opened Common
  import opened SlotLeaf
  import Rlp

  type U64 = n: nat | n < TWO_POW_64

  type Hash = s: seq<Byte> | |s| == 32 witness seq(32, _ => 0)

  const SIZE: nat := 176
  const CONSENSUS_SIZE: nat := 144

  datatype ProofOutputs = ProofOutputs(
    inputSlot: U64, inputStoreHash: Hash, outputSlot: U64, outputStoreHash: Hash, executionStateRoot: Hash,
    verifiedSlotsRoot: Hash, nextSyncCommitteeHash: Hash)

  datatype ConsensusProofOutputs = ConsensusProofOutputs(
    inputSlot: U64, inputStoreHash: Hash, outputSlot: U64, outputStoreHash: Hash, executionStateRoot: Hash,
    nextSyncCommitteeHash: Hash)

  datatype Parsed<+T> = Output(value: T) | InvalidLength(actual: nat) | Panics

  // ----- big-endian words

  lemma {:induction false} ValueBound(b: seq<Byte>)
    ensures Rlp.Value(b) < Rlp.Power256(|b|)
  {
    if b != [] { ValueBound(b[..|b| - 1]); }
  }

  lemma EightBytes()
    ensures Rlp.Power256(8) == TWO_POW_64
  {
    assert Rlp.Power256(4) == 0x1_0000_0000;
    Rlp.Power256Add(4, 4);
  }

  function FromBigEndian(b: seq<Byte>): U64
    requires |b| == 8
  {
    EightBytes();
    ValueBound(b);
    Rlp.Value(b)
  }

  // ----- the layout

  /** The seven fields one after the other. */
  function Layout(o: ProofOutputs): (b: seq<Byte>)
    ensures |b| == SIZE
  {
    BigEndian(o.inputSlot, 8) + o.inputStoreHash + BigEndian(o.outputSlot, 8) + o.outputStoreHash
    + o.executionStateRoot + o.verifiedSlotsRoot + o.nextSyncCommitteeHash
  }

  /** Different outputs have different bytes. */
  lemma LayoutUnique(o: ProofOutputs, p: ProofOutputs)
    requires Layout(o) == Layout(p)
    ensures o == p
  {
    var a, b := Layout(o), Layout(p);
    assert a[..8] == BigEndian(o.inputSlot, 8) && b[..8] == BigEndian(p.inputSlot, 8);
    assert a[8..40] == o.inputStoreHash && b[8..40] == p.inputStoreHash;
    assert a[40..48] == BigEndian(o.outputSlot, 8) && b[40..48] == BigEndian(p.outputSlot, 8);
    assert a[48..80] == o.outputStoreHash && b[48..80] == p.outputStoreHash;
    assert a[80..112] == o.executionStateRoot && b[80..112] == p.executionStateRoot;
    assert a[112..144] == o.verifiedSlotsRoot && b[112..144] == p.verifiedSlotsRoot;
    assert a[144..] == o.nextSyncCommitteeHash && b[144..] == p.nextSyncCommitteeHash;
    EightBytes();
    ValueOfBigEndian(o.inputSlot, 8);
    ValueOfBigEndian(p.inputSlot, 8);
    ValueOfBigEndian(o.outputSlot, 8);
    ValueOfBigEndian(p.outputSlot, 8);
  }

  /** Where each field is in the 176 bytes; the slots are big-endian numbers. */
  predicate At(b: seq<Byte>, o: ProofOutputs) {
    && |b| == 176
    && Rlp.Value(b[0..8]) == o.inputSlot && b[8..40] == o.inputStoreHash
    && Rlp.Value(b[40..48]) == o.outputSlot && b[48..80] == o.outputStoreHash
    && b[80..112] == o.executionStateRoot && b[112..144] == o.verifiedSlotsRoot
    && b[144..176] == o.nextSyncCommitteeHash
  }

  lemma LayoutIsAt(o: ProofOutputs)
    ensures At(Layout(o), o)
  {
    hide BigEndian, Rlp.Value;
    var a := Layout(o);
    assert a[0..8] == BigEndian(o.inputSlot, 8) && a[40..48] == BigEndian(o.outputSlot, 8);
    EightBytes();
    ValueOfBigEndian(o.inputSlot, 8);
    ValueOfBigEndian(o.outputSlot, 8);
  }

  /** `buf[at..end].copy_from_slice(source)` */
  method CopyFromSlice(buf: array<Byte>, at: nat, end: nat, source: seq<Byte>)
    requires at <= end <= buf.Length && |source| == end - at
    modifies buf
    ensures buf[..end] == old(buf[..at]) + source
    ensures buf[end..] == old(buf[end..])
  {
    forall i | 0 <= i < |source| { buf[at + i] := source[i]; }
  }

  method ToBytes(o: ProofOutputs) returns (buf: array<Byte>)
    ensures fresh(buf) && buf[..] == Layout(o) && At(buf[..], o)
  {
    buf := new Byte[SIZE](_ => 0);
    CopyFromSlice(buf, 0, 8, BigEndian(o.inputSlot, 8));
    CopyFromSlice(buf, 8, 40, o.inputStoreHash);
    CopyFromSlice(buf, 40, 48, BigEndian(o.outputSlot, 8));
    CopyFromSlice(buf, 48, 80, o.outputStoreHash);
    CopyFromSlice(buf, 80, 112, o.executionStateRoot);
    CopyFromSlice(buf, 112, 144, o.verifiedSlotsRoot);
    CopyFromSlice(buf, 144, 176, o.nextSyncCommitteeHash);
    assert buf[..] == buf[..176];
    LayoutIsAt(o);
  }

  /** Parsing succeeds exactly on inputs of 176 bytes, with the only outputs that have these bytes. */
  method FromBytes(bytes: seq<Byte>) returns (r: Parsed<ProofOutputs>)
    ensures |bytes| != SIZE ==> r == InvalidLength(|bytes|)
    ensures |bytes| == SIZE ==> r.Output? && Layout(r.value) == bytes && At(bytes, r.value)
    ensures forall o | Layout(o) == bytes :: r == Output(o)
  {
    if |bytes| != SIZE {
      return InvalidLength(|bytes|);
    }
    var inputSlot := FromBigEndian(bytes[0..8]);
    var outputSlot := FromBigEndian(bytes[40..48]);
    var o := ProofOutputs(inputSlot, bytes[8..40], outputSlot, bytes[48..80], bytes[80..112], bytes[112..144],
                          bytes[144..176]);
    BigEndianOfValue(bytes[0..8]);
    BigEndianOfValue(bytes[40..48]);
    assert Layout(o) == bytes;
    LayoutIsAt(o);
    forall p | Layout(p) == bytes ensures p == o {
      LayoutUnique(o, p);
    }
    r := Output(o);
  }

  // ----- the variant without storage slots

  function ConsensusLayout(o: ConsensusProofOutputs): (b: seq<Byte>)
    ensures |b| == CONSENSUS_SIZE
  {
    BigEndian(o.inputSlot, 8) + o.inputStoreHash + BigEndian(o.outputSlot, 8) + o.outputStoreHash
    + o.executionStateRoot + o.nextSyncCommitteeHash
  }

  /** Where each field is in the 144 bytes. */
  predicate ConsensusAt(b: seq<Byte>, o: ConsensusProofOutputs) {
    && |b| == 144
    && Rlp.Value(b[0..8]) == o.inputSlot && b[8..40] == o.inputStoreHash
    && Rlp.Value(b[40..48]) == o.outputSlot && b[48..80] == o.outputStoreHash
    && b[80..112] == o.executionStateRoot && b[112..144] == o.nextSyncCommitteeHash
  }

  lemma ConsensusLayoutIsAt(o: ConsensusProofOutputs)
    ensures ConsensusAt(ConsensusLayout(o), o)
  {
    hide BigEndian, Rlp.Value;
    var a := ConsensusLayout(o);
    assert a[0..8] == BigEndian(o.inputSlot, 8) && a[40..48] == BigEndian(o.outputSlot, 8);
    EightBytes();
    ValueOfBigEndian(o.inputSlot, 8);
    ValueOfBigEndian(o.outputSlot, 8);
  }

  method ConsensusToBytes(o: ConsensusProofOutputs) returns (buf: array<Byte>)
    ensures fresh(buf) && buf[..] == ConsensusLayout(o) && ConsensusAt(buf[..], o)
  {
    buf := new Byte[CONSENSUS_SIZE](_ => 0);
    CopyFromSlice(buf, 0, 8, BigEndian(o.inputSlot, 8));
    CopyFromSlice(buf, 8, 40, o.inputStoreHash);
    CopyFromSlice(buf, 40, 48, BigEndian(o.outputSlot, 8));
    CopyFromSlice(buf, 48, 80, o.outputStoreHash);
    CopyFromSlice(buf, 80, 112, o.executionStateRoot);
    CopyFromSlice(buf, 112, 144, o.nextSyncCommitteeHash);
    assert buf[..] == buf[..144];
    ConsensusLayoutIsAt(o);
  }

  /** A slice of the input; a range past its end makes the program panic. */
  function Slice(bytes: seq<Byte>, from: nat, to: nat): (s: Option<Hash>)
    requires to == from + 32
    ensures s.Some? <==> to <= |bytes|
  {
    if to <= |bytes| then Some(bytes[from..to]) else None
  }

  /** There is no round trip: the only inputs of the right length, and so every output of `to_bytes`, make
      `from_bytes` panic, because its last slice ends at byte 176 of 144. */
  method ConsensusFromBytes(bytes: seq<Byte>) returns (r: Parsed<ConsensusProofOutputs>)
    ensures r == if |bytes| == CONSENSUS_SIZE then Panics else InvalidLength(|bytes|)
  {
    if |bytes| != CONSENSUS_SIZE {
      return InvalidLength(|bytes|);
    }
    var inputSlot := FromBigEndian(bytes[0..8]);
    var outputSlot := FromBigEndian(bytes[40..48]);
    var nextSyncCommitteeHash := Slice(bytes, 144, 176);
    match nextSyncCommitteeHash {
      case None => r := Panics;
      case Some(h) => assert false;  // the source builds its outputs here
    }
  }
}
