/** The Poseidon leaf of one verified storage slot: `hash_storage_slot` in `mpt.rs` and the storage key
    computation `get_storage_location_for_key` in `types.rs`. */
module SlotLeaf {
  import opened Common
  import Rlp

  /** The base field of the Pallas curve. */
  const PASTA_FP_MODULUS: nat := 0x40000000000000000000000000000000224698fc094cf91b992d30ed00000001

  const SOURCE_CONTRACT_LOCKED_TOKENS_STORAGE_INDEX: Byte := 1

  type Word = n: nat | n < TWO_POW_256

  // ----- fixed-width integers

  /** The last k bytes of n, most significant first. */
  function BigEndian(n: nat, k: nat): (b: seq<Byte>)
    ensures |b| == k
  {
    if k == 0 then [] else BigEndian(n / 256, k - 1) + [n % 256]
  }

  lemma {:induction false} ValueOfBigEndian(n: nat, k: nat)
    requires n < Rlp.Power256(k)
    ensures Rlp.Value(BigEndian(n, k)) == n
  {
    if k > 0 {
      ValueOfBigEndian(n / 256, k - 1);
      assert BigEndian(n, k)[..k - 1] == BigEndian(n / 256, k - 1);
    }
  }

  lemma {:induction false} BigEndianOfValue(b: seq<Byte>)
    ensures BigEndian(Rlp.Value(b), |b|) == b
  {
    if b != [] { BigEndianOfValue(b[..|b| - 1]); }
  }

  lemma Widths()
    ensures Rlp.Power256(20) == TWO_POW_160 && Rlp.Power256(32) == TWO_POW_256
    ensures Rlp.Power256(21) < Rlp.Power256(31) < PASTA_FP_MODULUS
  {
    assert Rlp.Power256(4) == 0x1_0000_0000;
    Rlp.Power256Add(4, 4);
    Rlp.Power256Add(8, 8);
    Rlp.Power256Add(16, 4);
    Rlp.Power256Add(16, 16);
    Rlp.Power256Add(21, 10);
    assert Rlp.Power256(21) == 256 * Rlp.Power256(20);
    assert Rlp.Power256(32) == 256 * Rlp.Power256(31);
    Rlp.Power256Add(8, 2);
    assert Rlp.Power256(10) == 256 * (256 * Rlp.Power256(8));
  }

  function LittleEndian(b: seq<Byte>): nat {
    if b == [] then 0 else b[0] + 256 * LittleEndian(b[1..])
  }

  lemma {:induction false} LittleEndianBound(b: seq<Byte>)
    ensures LittleEndian(b) < Rlp.Power256(|b|)
  {
    if b != [] { LittleEndianBound(b[1..]); }
  }

  lemma {:induction false} LittleEndianUnique(a: seq<Byte>, b: seq<Byte>)
    requires |a| == |b| && LittleEndian(a) == LittleEndian(b)
    ensures a == b
  {
    if a != [] {
      LittleEndianUnique(a[1..], b[1..]);
      assert a == [a[0]] + a[1..] && b == [b[0]] + b[1..];
    }
  }

  /** The low k bytes of n, least significant first. */
  function LittleEndianBytes(n: nat, k: nat): (b: seq<Byte>)
    ensures |b| == k
  {
    if k == 0 then [] else [n % 256] + LittleEndianBytes(n / 256, k - 1)
  }

  lemma {:induction false} LittleEndianOfBytes(n: nat, k: nat)
    requires n < Rlp.Power256(k)
    ensures LittleEndian(LittleEndianBytes(n, k)) == n
  {
    if k > 0 {
      LittleEndianOfBytes(n / 256, k - 1);
      assert LittleEndianBytes(n, k)[1..] == LittleEndianBytes(n / 256, k - 1);
    }
  }

  function Zeros(n: nat): (z: seq<Byte>)
    ensures |z| == n && forall i | 0 <= i < n :: z[i] == 0
  {
    if n == 0 then [] else [0] + Zeros(n - 1)
  }

  lemma {:induction false} LittleEndianPadded(b: seq<Byte>, n: nat)
    ensures LittleEndian(b + Zeros(n)) == LittleEndian(b)
    decreases |b| + n
  {
    if b != [] {
      LittleEndianPadded(b[1..], n);
      assert (b + Zeros(n))[1..] == b[1..] + Zeros(n);
    } else if n > 0 {
      LittleEndianPadded([], n - 1);
      assert [] + Zeros(n) == Zeros(n) && Zeros(n)[1..] == [] + Zeros(n - 1);
    }
  }

  // ----- single bytes

  /** Digit i of n to the base 256, counted from the least significant. */
  function Digit(n: nat, i: nat): Byte
    decreases i
  {
    if i == 0 then n % 256 else Digit(n / 256, i - 1)
  }

  lemma {:induction false} BigEndianDigit(n: nat, k: nat, i: nat)
    requires i < k
    ensures BigEndian(n, k)[i] == Digit(n, k - 1 - i)
  {
    if i < k - 1 { BigEndianDigit(n / 256, k - 1, i); }
  }

  lemma {:induction false} LittleEndianDigit(b: seq<Byte>, i: nat)
    requires i < |b|
    ensures Digit(LittleEndian(b), i) == b[i]
  {
    var n, rest := LittleEndian(b), LittleEndian(b[1..]);
    assert n == 256 * rest + b[0];
    assert n % 256 == b[0] && n / 256 == rest;
    if i > 0 { LittleEndianDigit(b[1..], i - 1); }
  }

  // ----- packing an address and a value into two field elements

  function AddressBytes(a: Address): seq<Byte> { BigEndian(a, 20) }

  function ValueBytes(v: Word): seq<Byte> { BigEndian(v, 32) }

  /** The address and the first byte of the value. */
  function FirstField(a: Address, v: Word): nat {
    LittleEndian(AddressBytes(a) + [ValueBytes(v)[0]])
  }

  lemma FirstFieldBelow(a: Address, v: Word)
    ensures FirstField(a, v) < Rlp.Power256(21)
  {
    LittleEndianBound(AddressBytes(a) + [ValueBytes(v)[0]]);
  }

  /** The other 31 bytes of the value. */
  function SecondField(v: Word): nat {
    LittleEndian(ValueBytes(v)[1..])
  }

  /** Reading 32 little-endian bytes as a field element fails from the modulus on. */
  function FieldFromBytes(b: seq<Byte>): Option<nat>
    requires |b| == 32
  {
    if LittleEndian(b) < PASTA_FP_MODULUS then Some(LittleEndian(b)) else None
  }

  /** The 32 little-endian bytes of a field element. */
  function FieldBytes(x: nat): (b: seq<Byte>)
    ensures |b| == 32
  {
    LittleEndianBytes(x, 32)
  }

  lemma FieldBytesUnique(x: nat, y: nat)
    requires x < PASTA_FP_MODULUS && y < PASTA_FP_MODULUS && FieldBytes(x) == FieldBytes(y)
    ensures x == y
  {
    Widths();
    LittleEndianOfBytes(x, 32);
    LittleEndianOfBytes(y, 32);
  }

  /** Both field elements stay below 2^248, so reading them back never fails. */
  lemma FieldsInRange(a: Address, v: Word)
    ensures FirstField(a, v) < Rlp.Power256(31) && SecondField(v) < Rlp.Power256(31)
    ensures FieldFromBytes(AddressBytes(a) + [ValueBytes(v)[0]] + Zeros(11)) == Some(FirstField(a, v))
    ensures FieldFromBytes(ValueBytes(v)[1..] + [0]) == Some(SecondField(v))
  {
    Widths();
    LittleEndianBound(AddressBytes(a) + [ValueBytes(v)[0]]);
    LittleEndianBound(ValueBytes(v)[1..]);
    LittleEndianPadded(AddressBytes(a) + [ValueBytes(v)[0]], 11);
    LittleEndianPadded(ValueBytes(v)[1..], 1);
    assert Zeros(1) == [0];
  }

  /** Where every byte goes: the address from its most significant byte on, behind it the first byte of the
      value, and the other 31 bytes of the value from the most significant on; each field spells its bytes from
      the least significant on. */
  lemma FieldsHoldTheBytes(a: Address, v: Word, i: nat)
    ensures i < 20 ==> Digit(FirstField(a, v), i) == Digit(a, 19 - i)
    ensures i == 20 ==> Digit(FirstField(a, v), i) == Digit(v, 51 - i)
    ensures i < 31 ==> Digit(SecondField(v), i) == Digit(v, 30 - i)
  {
    hide LittleEndian, BigEndian, Digit;
    var first := AddressBytes(a) + [ValueBytes(v)[0]];
    if i == 20 {
      LittleEndianDigit(first, i);
      BigEndianDigit(v, 32, 0);
    }
    if i < 20 {
      LittleEndianDigit(first, i);
      BigEndianDigit(a, 20, i);
    }
    if i < 31 {
      LittleEndianDigit(ValueBytes(v)[1..], i);
      BigEndianDigit(v, 32, i + 1);
    }
  }

  /** A number below 256^21 with the address in its 20 low digits, most significant digit first, and above them
      the first byte of the value. */
  predicate IsFirstField(x: nat, a: Address, v: Word) {
    && x < Rlp.Power256(21)
    && forall i: nat | i <= 20 :: Digit(x, i) == if i < 20 then Digit(a, 19 - i) else Digit(v, 51 - i)
  }

  /** A number below 256^31 with the other 31 bytes of the value, most significant digit first. */
  predicate IsSecondField(y: nat, v: Word) {
    && y < Rlp.Power256(31)
    && forall i: nat | i < 31 :: Digit(y, i) == Digit(v, 30 - i)
  }

  lemma FieldsAre(a: Address, v: Word)
    ensures IsFirstField(FirstField(a, v), a, v) && IsSecondField(SecondField(v), v)
  {
    hide Digit, Rlp.Power256, FirstField, SecondField;
    FirstFieldBelow(a, v);
    FieldsInRange(a, v);
    forall i: nat | i <= 20
      ensures Digit(FirstField(a, v), i) == if i < 20 then Digit(a, 19 - i) else Digit(v, 51 - i)
    {
      FieldsHoldTheBytes(a, v, i);
    }
    forall i: nat | i < 31 ensures Digit(SecondField(v), i) == Digit(v, 30 - i) {
      FieldsHoldTheBytes(a, v, i);
    }
  }

  /** The leaf hashes the field with the address first. */
  ghost predicate IsLeaf(poseidon: (nat, nat) -> nat, a: Address, v: Word, leaf: nat) {
    exists x, y :: IsFirstField(x, a, v) && IsSecondField(y, v) && leaf == poseidon(x, y)
  }

  /** The committed bytes spell the field element from the least significant byte on. */
  lemma FieldBytesDigit(x: nat, i: nat)
    requires x < PASTA_FP_MODULUS && i < 32
    ensures FieldBytes(x)[i] == Digit(x, i)
  {
    Widths();
    LittleEndianOfBytes(x, 32);
    LittleEndianDigit(FieldBytes(x), i);
  }

  lemma AddressBytesUnique(a: Address, b: Address)
    requires AddressBytes(a) == AddressBytes(b)
    ensures a == b
  {
    hide BigEndian;
    Widths();
    ValueOfBigEndian(a, 20);
    ValueOfBigEndian(b, 20);
  }

  lemma ValueBytesUnique(v: Word, w: Word)
    requires ValueBytes(v) == ValueBytes(w)
    ensures v == w
  {
    hide BigEndian;
    Widths();
    ValueOfBigEndian(v, 32);
    ValueOfBigEndian(w, 32);
  }

  /** The packing loses nothing. */
  lemma PackingUnique(a: Address, v: Word, b: Address, w: Word)
    requires FirstField(a, v) == FirstField(b, w) && SecondField(v) == SecondField(w)
    ensures a == b && v == w
  {
    hide LittleEndian, BigEndian;
    var x, y := ValueBytes(v), ValueBytes(w);
    LittleEndianUnique(AddressBytes(a) + [x[0]], AddressBytes(b) + [y[0]]);
    assert (AddressBytes(a) + [x[0]])[..20] == AddressBytes(a) && (AddressBytes(b) + [y[0]])[..20] == AddressBytes(b);
    assert (AddressBytes(a) + [x[0]])[20] == x[0] && (AddressBytes(b) + [y[0]])[20] == y[0];
    LittleEndianUnique(x[1..], y[1..]);
    assert x == [x[0]] + x[1..] && y == [y[0]] + y[1..];
    AddressBytesUnique(a, b);
    ValueBytesUnique(v, w);
  }

  /** The leaf hash, with the two 32-byte buffers filled by copying; it never fails. */
  method HashStorageSlot(poseidon: (nat, nat) -> nat, address: Address, value: Word) returns (leaf: Option<nat>)
    ensures leaf == Some(poseidon(FirstField(address, value), SecondField(value)))
    ensures IsLeaf(poseidon, address, value, leaf.value)
  {
    FieldsAre(address, value);
    hide IsFirstField, IsSecondField;
    var addressSlice := AddressBytes(address);
    var valueBytes := ValueBytes(value);
    var firstFieldBytes := new Byte[32](_ => 0);
    forall i | 0 <= i < 20 { firstFieldBytes[i] := addressSlice[i]; }
    firstFieldBytes[20] := valueBytes[0];
    var secondFieldBytes := new Byte[32](_ => 0);
    forall i | 0 <= i < 31 { secondFieldBytes[i] := valueBytes[1 + i]; }
    assert firstFieldBytes[..] == addressSlice + [valueBytes[0]] + Zeros(11);
    assert secondFieldBytes[..] == valueBytes[1..] + [0];
    FieldsInRange(address, value);
    var firstField := FieldFromBytes(firstFieldBytes[..]);
    if firstField.None? { return None; }
    var secondField := FieldFromBytes(secondFieldBytes[..]);
    if secondField.None? { return None; }
    leaf := Some(poseidon(firstField.value, secondField.value));
  }

  // ----- the storage key of a mapping entry

  /** left_padded(address, 32) followed by left_padded(mapping_index, 32) */
  function SlotPreimage(address: Address, mappingIndex: Byte): seq<Byte> {
    Zeros(12) + AddressBytes(address) + Zeros(31) + [mappingIndex]
  }

  lemma SlotPreimageUnique(a: Address, b: Address, i: Byte)
    requires SlotPreimage(a, i) == SlotPreimage(b, i)
    ensures a == b
  {
    hide BigEndian;
    assert SlotPreimage(a, i)[12..32] == AddressBytes(a);
    assert SlotPreimage(b, i)[12..32] == AddressBytes(b);
    AddressBytesUnique(a, b);
  }

  /** The 64 bytes that are hashed for a mapping entry: the user's address as a 32-byte number, and then the
      mapping's place in the contract's storage as one. */
  predicate IsMappingEntry(e: seq<Byte>, user: Address, mappingIndex: nat) {
    |e| == 64 && Rlp.Value(e[..32]) == user && Rlp.Value(e[32..]) == mappingIndex
  }

  /** The 20 bytes that spell an address. */
  predicate IsAddress(b: seq<Byte>, a: Address) {
    |b| == 20 && Rlp.Value(b) == a
  }

  lemma {:induction false} LeadingZeros(n: nat, b: seq<Byte>)
    ensures Rlp.Value(Zeros(n) + b) == Rlp.Value(b)
    decreases n + |b|
  {
    var all := Zeros(n) + b;
    if b != [] {
      LeadingZeros(n, b[..|b| - 1]);
      assert all[..|all| - 1] == Zeros(n) + b[..|b| - 1];
    } else if n > 0 {
      LeadingZeros(n - 1, []);
      assert all[..n - 1] == Zeros(n - 1) + [];
    }
  }

  lemma PreimageIsMappingEntry(e: seq<Byte>, user: Address, i: Byte)
    ensures IsMappingEntry(e, user, i) <==> e == SlotPreimage(user, i)
  {
    hide BigEndian, Rlp.Value;
    var p := SlotPreimage(user, i);
    assert p[..32] == Zeros(12) + AddressBytes(user) && p[32..] == Zeros(31) + [i];
    LeadingZeros(12, AddressBytes(user));
    LeadingZeros(31, [i]);
    Widths();
    ValueOfBigEndian(user, 20);
    OneByte(i);
    if IsMappingEntry(e, user, i) {
      BigEndianOfValue(e[..32]);
      BigEndianOfValue(e[32..]);
      BigEndianOfValue(p[..32]);
      BigEndianOfValue(p[32..]);
      assert e == e[..32] + e[32..] && p == p[..32] + p[32..];
    }
  }

  lemma OneByte(i: Byte)
    ensures Rlp.Value([i]) == i
  {
    assert [i][..0] == [];
  }

  lemma AddressBytesAre(b: seq<Byte>, a: Address)
    ensures IsAddress(b, a) <==> b == AddressBytes(a)
  {
    hide BigEndian, Rlp.Value;
    Widths();
    ValueOfBigEndian(a, 20);
    if IsAddress(b, a) { BigEndianOfValue(b); }
  }

  /** The storage key of a user's entry in `lockedTokens`. */
  function SlotKey(keccak: seq<Byte> -> seq<Byte>, user: Address): seq<Byte> {
    keccak(SlotPreimage(user, SOURCE_CONTRACT_LOCKED_TOKENS_STORAGE_INDEX))
  }

  method GetStorageLocationForKey(keccak: seq<Byte> -> seq<Byte>, address: Address, mappingIndex: Byte)
    returns (key: seq<Byte>)
    ensures exists e :: IsMappingEntry(e, address, mappingIndex) && key == keccak(e)
    ensures key == keccak(SlotPreimage(address, mappingIndex))
  {
    var addressSlice := AddressBytes(address);
    var encoded := new Byte[64](_ => 0);
    forall i | 0 <= i < 20 { encoded[12 + i] := addressSlice[i]; }
    encoded[63] := mappingIndex;
    assert encoded[..] == SlotPreimage(address, mappingIndex);
    PreimageIsMappingEntry(encoded[..], address, mappingIndex);
    key := keccak(encoded[..]);
  }
}
