/** Bit streams in memory: writing to the end of one, reading from the position of another. */
module MemoryStreams {
  import opened Options
  import opened BitSequences
  import opened Words

  /** The bytes hold the bits up to the length; the bits that are not used are zero. */
  predicate Packed(data: seq<nat>, length: nat) {
    AreBytes(data) && |data| == (length + 7) / 8 && forall i :: length <= i < 8 * |data| ==> !Unpack(data)[i]
  }

  function Appended(data: seq<nat>, length: nat, value: bool): seq<nat>
    requires |data| == (length + 7) / 8
  {
    var room := if length % 8 == 0 then data + [0] else data;
    if value then WithBitSet(room, length) else room
  }

  lemma ZeroByte()
    ensures forall i :: 0 <= i < 8 ==> !ByteBits(0)[i]
  {
    forall i | 0 <= i < 8 ensures !ByteBits(0)[i] {
      DivIs(0, Pow2(7 - i), 0, 0);
    }
  }

  lemma AppendedIsPacked(data: seq<nat>, length: nat, value: bool)
    requires Packed(data, length)
    ensures Packed(Appended(data, length, value), length + 1)
    ensures Unpack(Appended(data, length, value))[..length + 1] == Unpack(data)[..length] + [value]
  {
    var room := if length % 8 == 0 then data + [0] else data;
    if length % 8 == 0 {
      UnpackAppend(data, [0]);
      UnpackOne(0);
      ZeroByte();
    }
    assert forall i :: length <= i < 8 * |room| ==> !Unpack(room)[i];
    assert Unpack(room)[..length] == Unpack(data)[..length];
    if value {
      WithBitSetIs(room, length);
    }
  }

  lemma WholeBytes(data: seq<nat>, length: nat)
    requires Packed(data, length) && length % 8 == 0
    ensures length == 8 * |data|
  {
  }

  lemma BytesAppended(data: seq<nat>, length: nat, bytes: seq<nat>)
    requires Packed(data, length) && length % 8 == 0 && AreBytes(bytes)
    ensures Packed(data + bytes, length + 8 * |bytes|)
    ensures length + 8 * |bytes| == 8 * |data + bytes| && Unpack(data + bytes)[..length + 8 * |bytes|] ==
      Unpack(data)[..length] + Unpack(bytes)
  {
    WholeBytes(data, length);
    UnpackAppend(data, bytes);
    hide Unpack;
    assert Unpack(data)[..length] == Unpack(data);
    assert (length + 8 * |bytes| + 7) / 8 == |data| + |bytes|;
  }

  class MemoryOutputStream {
    var data: seq<nat>
    var length: nat

    ghost predicate Valid()
      reads this
    {
      Packed(data, length)
    }

    ghost function Contents(): (r: seq<bool>)
      requires Valid()
      reads this
      ensures |r| == length
    {
      Unpack(data)[..length]
    }

    constructor ()
      ensures Valid() && Contents() == []
    {
      data := [];
      length := 0;
    }

    method WriteBit(value: bool)
      requires Valid()
      modifies this
      ensures Valid() && Contents() == old(Contents()) + [value]
    {
      AppendedIsPacked(data, length, value);
      var byteIndex := length / 8;
      var bitIndex := length % 8;
      if bitIndex == 0 {
        data := data + [0];
      }
      if value {
        data := data[byteIndex := Or(data[byteIndex], Pow2(7 - bitIndex))];
      }
      length := length + 1;
    }

    method WriteBits(bits: seq<bool>)
      requires Valid()
      modifies this
      ensures Valid() && Contents() == old(Contents()) + bits
    {
      var i := 0;
      while i < |bits|
        invariant 0 <= i <= |bits| && Valid() && Contents() == old(Contents()) + bits[..i]
      {
        WriteBit(bits[i]);
        i := i + 1;
      }
    }

    method WriteByte(value: nat)
      requires Valid() && length % 8 == 0 && value < 256
      modifies this
      ensures Valid() && data == old(data) + [value] && length == old(length) + 8
    {
      BytesAppended(data, length, [value]);
      data := data + [value];
      length := length + 8;
    }

    method WriteBytes(bytes: seq<nat>)
      requires Valid() && length % 8 == 0 && AreBytes(bytes)
      modifies this
      ensures Valid() && data == old(data) + bytes && length == old(length) + 8 * |bytes|
    {
      BytesAppended(data, length, bytes);
      data := data + bytes;
      length := length + 8 * |bytes|;
    }

    method WriteUint2(value: nat)
      requires Valid()
      modifies this
      ensures Valid() && Contents() == old(Contents()) + Encode(Uint2(value))
    {
      AndBit(value, 1);
      AndBit(value, 0);
      assert Pow2(1) == 2;
      WriteBit(And(value, 0x2) != 0);
      WriteBit(And(value, 0x1) != 0);
    }

    method WriteUint4(value: nat)
      requires Valid()
      modifies this
      ensures Valid() && Contents() == old(Contents()) + Encode(Uint4(value))
    {
      AndBit(value, 3);
      AndBit(value, 2);
      AndBit(value, 1);
      AndBit(value, 0);
      assert Pow2(1) == 2 && Pow2(2) == 4 && Pow2(3) == 8;
      hide Packed, BitOf, And;
      WriteBit(And(value, 0x8) != 0);
      WriteBit(And(value, 0x4) != 0);
      WriteBit(And(value, 0x2) != 0);
      WriteBit(And(value, 0x1) != 0);
    }

    method WriteUint8(value: nat)
      requires Valid() && length % 8 == 0 && value < 256
      modifies this
      ensures Valid() && data == old(data) + [value] && length == old(length) + 8
    {
      WriteByte(value);
    }

    method WriteUint16Be(value: nat)
      requires Valid() && length % 8 == 0
      modifies this
      ensures Valid() && data == old(data) + BytesBe(value, 2) && length == old(length) + 16
    {
      hide Packed;
      ShiftedBytes(value, 2);
      WriteByte(value / 0x100 % 256);
      WriteByte(value % 256);
    }

    method WriteUint16Le(value: nat)
      requires Valid() && length % 8 == 0
      modifies this
      ensures Valid() && data == old(data) + BytesLe(value, 2) && length == old(length) + 16
    {
      hide Packed;
      ShiftedBytes(value, 2);
      WriteByte(value % 256);
      WriteByte(value / 0x100 % 256);
    }

    method WriteUint32Be(value: nat)
      requires Valid() && length % 8 == 0
      modifies this
      ensures Valid() && data == old(data) + BytesBe(value, 4) && length == old(length) + 32
    {
      hide Packed;
      ShiftedBytes(value, 4);
      WriteByte(value / 0x100_0000 % 256);
      WriteByte(value / 0x1_0000 % 256);
      WriteByte(value / 0x100 % 256);
      WriteByte(value % 256);
      assert BytesBe(value, 4) == [Shifted(value, 3), Shifted(value, 2), Shifted(value, 1), Shifted(value, 0)];
    }

    method WriteUint32Le(value: nat)
      requires Valid() && length % 8 == 0
      modifies this
      ensures Valid() && data == old(data) + BytesLe(value, 4) && length == old(length) + 32
    {
      hide Packed;
      ShiftedBytes(value, 4);
      WriteByte(value % 256);
      WriteByte(value / 0x100 % 256);
      WriteByte(value / 0x1_0000 % 256);
      WriteByte(value / 0x100_0000 % 256);
      assert BytesLe(value, 4) == [Shifted(value, 0), Shifted(value, 1), Shifted(value, 2), Shifted(value, 3)];
    }

    method WriteUint64Be(value: nat)
      requires Valid() && length % 8 == 0
      modifies this
      ensures Valid() && data == old(data) + BytesBe(value, 8) && length == old(length) + 64
    {
      hide Packed, AreBytes;
      ShiftedBytes(value, 8);
      WriteByte(value / 0x100_0000_0000_0000 % 256);
      WriteByte(value / 0x1_0000_0000_0000 % 256);
      WriteByte(value / 0x100_0000_0000 % 256);
      WriteByte(value / 0x1_0000_0000 % 256);
      WriteByte(value / 0x100_0000 % 256);
      WriteByte(value / 0x1_0000 % 256);
      WriteByte(value / 0x100 % 256);
      WriteByte(value % 256);
      ghost var first, second := [Shifted(value, 7), Shifted(value, 6), Shifted(value, 5), Shifted(value, 4)],
        [Shifted(value, 3), Shifted(value, 2), Shifted(value, 1), Shifted(value, 0)];
      assert BytesBe(value, 8) == first + second;
      assert data == old(data) + first + second;
    }

    method WriteUint64Le(value: nat)
      requires Valid() && length % 8 == 0
      modifies this
      ensures Valid() && data == old(data) + BytesLe(value, 8) && length == old(length) + 64
    {
      hide Packed, AreBytes;
      ShiftedBytes(value, 8);
      WriteByte(value % 256);
      WriteByte(value / 0x100 % 256);
      WriteByte(value / 0x1_0000 % 256);
      WriteByte(value / 0x100_0000 % 256);
      WriteByte(value / 0x1_0000_0000 % 256);
      WriteByte(value / 0x100_0000_0000 % 256);
      WriteByte(value / 0x1_0000_0000_0000 % 256);
      WriteByte(value / 0x100_0000_0000_0000 % 256);
      ghost var first, second := [Shifted(value, 0), Shifted(value, 1), Shifted(value, 2), Shifted(value, 3)],
        [Shifted(value, 4), Shifted(value, 5), Shifted(value, 6), Shifted(value, 7)];
      assert BytesLe(value, 8) == first + second;
      assert data == old(data) + first + second;
    }
  }

  /** Byte k of a number, the lowest one first. */
  function Shifted(v: nat, k: nat): nat { v / Pow256(k) % 256 }

  lemma {:induction false} BytesAreShifted(v: nat, n: nat, k: nat)
    requires k < n
    ensures BytesLe(v, n)[k] == Shifted(v, k) && BytesBe(v, n)[n - 1 - k] == Shifted(v, k)
    decreases n
  {
    if k > 0 {
      BytesAreShifted(v / 256, n - 1, k - 1);
      DivDiv(v, 256, Pow256(k - 1));
    }
    OrdersAreReverse(v, n, n - 1 - k);
  }

  lemma ShiftedBytes(v: nat, n: nat)
    ensures forall k :: 0 <= k < n ==> BytesLe(v, n)[k] == Shifted(v, k) && BytesBe(v, n)[n - 1 - k] == Shifted(v, k)
    ensures Pow256(0) == 1 && Pow256(1) == 0x100 && Pow256(2) == 0x1_0000 && Pow256(3) == 0x100_0000
    ensures Pow256(4) == 0x1_0000_0000 && Pow256(5) == 0x100_0000_0000 && Pow256(6) == 0x1_0000_0000_0000 &&
      Pow256(7) == 0x100_0000_0000_0000
  {
    forall k | 0 <= k < n ensures BytesLe(v, n)[k] == Shifted(v, k) && BytesBe(v, n)[n - 1 - k] == Shifted(v, k) {
      BytesAreShifted(v, n, k);
    }
    assert Pow256(1) == 256 * Pow256(0) && Pow256(2) == 256 * Pow256(1) && Pow256(3) == 256 * Pow256(2) &&
      Pow256(4) == 256 * Pow256(3);
    assert Pow256(5) == 256 * Pow256(4) && Pow256(6) == 256 * Pow256(5) && Pow256(7) == 256 * Pow256(6);
  }

  // ----- Reading -------------------------------------------------------------------------------------

  /** A byte put above a number that leaves room for it, or below. */
  lemma PutAbove(v: nat, b: nat, k: nat)
    requires v < Pow256(k) && b < 256
    ensures Or(v, b * Pow256(k)) == v + b * Pow256(k)
  {
    Pow256IsPow2(k);
    DivIs(b * Pow256(k), Pow256(k), b, 0);
    OrCommutes(v, b * Pow256(k));
    OrDisjoint(b * Pow256(k), v, 8 * k);
  }

  lemma Regroup(v: nat, b: nat, p: nat)
    requires b < 256 && p > 0
    ensures v * (256 * p) + b * p == (256 * v + b) * p && 0 <= v * (256 * p) && 0 <= b * p < 256 * p
  {
    MulLeq(b, 255, p);
    MulLeq(0, b, p);
    MulLeq(0, v, 256 * p);
    MulAssoc(v, 256, p);
  }

  lemma PutBelow(v: nat, b: nat, k: nat)
    requires b < 256
    ensures Or(v * Pow256(k + 1), b * Pow256(k)) == (256 * v + b) * Pow256(k)
  {
    var p := Pow256(k);
    Pow256IsPow2(k + 1);
    assert Pow256(k + 1) == 256 * p;
    hide Or, Pow2, Pow256;
    Regroup(v, b, p);
    var high, low := v * (256 * p), b * p;
    DivIs(high, 256 * p, v, 0);
    OrDisjoint(high, low, 8 * (k + 1));
  }

  lemma {:induction false} Pow256IsPow2(k: nat)
    ensures Pow256(k) == Pow2(8 * k)
  {
    if k > 0 {
      Pow256IsPow2(k - 1);
      Pow2Add(8, 8 * (k - 1));
      Pow2Four();
      Pow2Add(4, 4);
    }
  }

  /** Reading one more byte of a number, in both orders. */
  function PutBe(v: nat, b: nat, k: nat): nat { Or(v, b * Pow256(k)) }

  lemma OneMoreBe(bytes: seq<nat>, shift: nat, v: nat)
    requires AreBytes(bytes) && 0 < |bytes| && v == FromBe(bytes[..|bytes| - 1]) * Pow256(shift + 1)
    ensures PutBe(v, bytes[|bytes| - 1], shift) == FromBe(bytes) * Pow256(shift)
  {
    PutBelow(FromBe(bytes[..|bytes| - 1]), bytes[|bytes| - 1], shift);
  }

  lemma {:induction false} FromLeFits(bytes: seq<nat>)
    requires AreBytes(bytes)
    ensures FromLe(bytes) < Pow256(|bytes|)
  {
    if bytes != [] {
      FromLeFits(bytes[1..]);
    }
  }

  lemma {:induction false} FromLeAppend(bytes: seq<nat>, b: nat)
    ensures FromLe(bytes + [b]) == FromLe(bytes) + b * Pow256(|bytes|)
  {
    if bytes == [] {
      assert [] + [b] == [b] && [b][1..] == [];
    } else {
      assert (bytes + [b])[1..] == bytes[1..] + [b];
      FromLeAppend(bytes[1..], b);
      assert 256 * (b * Pow256(|bytes| - 1)) == b * (256 * Pow256(|bytes| - 1));
    }
  }

  lemma OneMoreLe(bytes: seq<nat>, v: nat)
    requires AreBytes(bytes) && 0 < |bytes| && v == FromLe(bytes[..|bytes| - 1])
    ensures PutBe(v, bytes[|bytes| - 1], |bytes| - 1) == FromLe(bytes)
  {
    var init := bytes[..|bytes| - 1];
    assert bytes == init + [bytes[|bytes| - 1]];
    FromLeFits(init);
    PutAbove(v, bytes[|bytes| - 1], |init|);
    FromLeAppend(init, bytes[|bytes| - 1]);
  }

  // ----- Beyond the end --------------------------------------------------------------------------------

  function Least(a: nat, b: nat): nat { if a < b then a else b }

  /** A byte that is not wholly there is read as zero. */
  function PaddedByte(data: seq<nat>, length: nat, i: nat): nat
  {
    if 8 * i + 8 <= length && i < |data| then data[i] else 0
  }

  /** What n bytes from byte p on are read as. */
  function PaddedBytes(data: seq<nat>, length: nat, p: nat, n: nat): (r: seq<nat>)
    ensures |r| == n
  {
    if n == 0 then [] else PaddedBytes(data, length, p, n - 1) + [PaddedByte(data, length, p + n - 1)]
  }

  lemma {:induction false} PaddedAreBytes(data: seq<nat>, length: nat, p: nat, n: nat)
    requires AreBytes(data)
    ensures AreBytes(PaddedBytes(data, length, p, n))
  {
    if n > 0 {
      PaddedAreBytes(data, length, p, n - 1);
    }
  }

  lemma {:induction false} PaddedIsData(data: seq<nat>, length: nat, p: nat, n: nat)
    requires 8 * (p + n) <= length <= 8 * |data|
    ensures PaddedBytes(data, length, p, n) == data[p..p + n]
  {
    if n > 0 {
      PaddedIsData(data, length, p, n - 1);
    }
  }

  lemma PaddedParts(data: seq<nat>, length: nat, p: nat, m: nat)
    requires AreBytes(data)
    ensures var bytes := PaddedBytes(data, length, p, m + 1);
      AreBytes(bytes) && |bytes| == m + 1 && bytes[..m] == PaddedBytes(data, length, p, m) &&
      bytes[m] == PaddedByte(data, length, p + m)
  {
    PaddedAreBytes(data, length, p, m + 1);
  }

  lemma PaddedOneMoreBe(data: seq<nat>, length: nat, p: nat, m: nat, shift: nat, v: nat, b: nat)
    requires AreBytes(data) && v == FromBe(PaddedBytes(data, length, p, m)) * Pow256(shift + 1)
    requires b == PaddedByte(data, length, p + m)
    ensures PutBe(v, b, shift) == FromBe(PaddedBytes(data, length, p, m + 1)) * Pow256(shift)
  {
    hide *;
    PaddedParts(data, length, p, m);
    OneMoreBe(PaddedBytes(data, length, p, m + 1), shift, v);
  }

  lemma PaddedOneMoreLe(data: seq<nat>, length: nat, p: nat, m: nat, v: nat, b: nat)
    requires AreBytes(data) && v == FromLe(PaddedBytes(data, length, p, m)) && b == PaddedByte(data, length, p + m)
    ensures PutBe(v, b, m) == FromLe(PaddedBytes(data, length, p, m + 1))
  {
    hide *;
    PaddedParts(data, length, p, m);
    OneMoreLe(PaddedBytes(data, length, p, m + 1), v);
  }

  /** A bit beyond the end is read as false. */
  function PaddedBit(data: seq<nat>, length: nat, i: nat): bool
    requires length <= 8 * |data|
  {
    i < length && Unpack(data)[i]
  }

  class MemoryInputStream {
    var data: seq<nat>
    var length: nat
    var position: nat
    var isReadBeyondEnd: bool

    ghost predicate Valid()
      reads this
    {
      AreBytes(data) && position <= length <= 8 * |data|
    }

    /** What is left to read. */
    ghost function Remaining(): (r: seq<bool>)
      requires Valid()
      reads this
      ensures |r| == length - position
    {
      Unpack(data)[position..length]
    }

    constructor (data: seq<nat>, length: nat, position: nat)
      requires AreBytes(data) && position <= length <= 8 * |data|
      ensures Valid() && this.data == data && this.length == length && this.position == position && !isReadBeyondEnd
    {
      this.data, this.length, this.position, isReadBeyondEnd := data, length, position, false;
    }

    method Seek(position: nat)
      requires Valid() && position <= length
      modifies this`position
      ensures Valid() && this.position == position
    {
      this.position := position;
    }

    method ReadBit() returns (r: bool)
      requires Valid()
      modifies this`position, this`isReadBeyondEnd
      ensures Valid()
      ensures if old(position) == length then !r && position == length && isReadBeyondEnd
              else
                r == Unpack(data)[old(position)] && position == old(position) + 1 &&
                isReadBeyondEnd == old(isReadBeyondEnd)
    {
      if position == length {
        isReadBeyondEnd := true;
        return false;
      }
      var byteIndex := position / 8;
      var bitIndex := position % 8;
      UnpackAt(data, position);
      AndBit(data[byteIndex], 7 - bitIndex);
      position := position + 1;
      return And(data[byteIndex], Pow2(7 - bitIndex)) != 0;
    }

    /** Reads as many bits as there are, and one more, a zero, if there are too few; none after reading beyond the
        end. */
    method ReadBits(n: nat) returns (bits: seq<bool>)
      requires Valid()
      modifies this`position, this`isReadBeyondEnd
      ensures Valid()
      ensures if old(isReadBeyondEnd) then bits == [] && position == old(position) && isReadBeyondEnd
              else if n <= old(|Remaining()|) then bits == old(Remaining()[..n]) && position == old(position) + n &&
                !isReadBeyondEnd
              else bits == old(Remaining()) + [false] && position == length && isReadBeyondEnd
    {
      bits := [];
      if isReadBeyondEnd {
        return;
      }
      ghost var start, all := position, Remaining();
      var i := 0;
      while i < n
        invariant 0 <= i <= n && Valid() && |bits| == i
        invariant if isReadBeyondEnd then i == |all| + 1 && bits == all + [false] && position == length
                  else position == start + i && i <= |all| && bits == all[..i]
      {
        if isReadBeyondEnd {
          break;
        }
        assert i < |all| ==> all[i] == Unpack(data)[start + i] && all[..i + 1] == all[..i] + [all[i]];
        var bit := ReadBit();
        bits := bits + [bit];
        i := i + 1;
      }
    }

    method ReadByte() returns (r: nat)
      requires Valid() && position % 8 == 0
      modifies this`position, this`isReadBeyondEnd
      ensures Valid()
      ensures if old(position) + 8 > length then r == 0 && position == length && isReadBeyondEnd
              else
                r == data[old(position) / 8] && position == old(position) + 8 &&
                isReadBeyondEnd == old(isReadBeyondEnd)
    {
      if position + 8 > length {
        isReadBeyondEnd := true;
        position := length;
        return 0;
      }
      r := data[position / 8];
      position := position + 8;
    }

    /** Reads as many bytes as there are; but if that is not a whole number, the conversion of the bits that are left to
        bytes fails, and nothing is read. */
    method ReadBytes(n: nat) returns (bytes: Option<seq<nat>>)
      requires Valid() && position % 8 == 0
      modifies this`position, this`isReadBeyondEnd
      ensures Valid() && (bytes.None? <==> old(position) + 8 * n > length && (length - old(position)) % 8 != 0)
      ensures bytes.None? ==> position == old(position) && isReadBeyondEnd == old(isReadBeyondEnd)
      ensures bytes.Some? ==>
        position == old(position) + 8 * |bytes.value| && bytes.value == data[old(position) / 8..position / 8] &&
        if old(position) + 8 * n <= length then |bytes.value| == n && isReadBeyondEnd == old(isReadBeyondEnd)
        else |bytes.value| < n && position == length && isReadBeyondEnd
    {
      var count := n;
      if position + 8 * n > length {
        if (length - position) % 8 != 0 {
          return None;
        }
        count := (length - position) / 8;
        isReadBeyondEnd := true;
      }
      bytes := Some(data[position / 8..position / 8 + count]);
      position := position + 8 * count;
    }

    /** The position is that of byte i, or the end if that is before it; reading a byte there is allowed. */
    ghost predicate AtByte(i: nat)
      reads this
    {
      position == Least(8 * i, length) && (8 * i <= length || length % 8 == 0)
    }

    /** The byte after which m bytes are behind the stream, and the flag. */
    ghost predicate HasRead(m: nat, before: bool)
      reads this
    {
      Valid() && position == Least(8 * m, length) && isReadBeyondEnd == (before || 8 * m > length)
    }

    /** A byte at i, or a zero beyond the end. */
    method NextByte(ghost i: nat) returns (b: nat)
      requires Valid() && AtByte(i)
      modifies this`position, this`isReadBeyondEnd
      ensures b == PaddedByte(data, length, i) && HasRead(i + 1, old(isReadBeyondEnd))
    {
      b := ReadByte();
    }

    /** The next byte of a number of n bytes that starts at byte p, the most significant one first. */
    method NextBe(v: nat, shift: nat, ghost p: nat, ghost n: nat) returns (value: nat)
      requires Valid() && shift < n && AtByte(p + n - 1 - shift)
      requires v == FromBe(PaddedBytes(data, length, p, n - 1 - shift)) * Pow256(shift + 1)
      modifies this`position, this`isReadBeyondEnd
      ensures HasRead(p + n - shift, old(isReadBeyondEnd))
      ensures value == FromBe(PaddedBytes(data, length, p, n - shift)) * Pow256(shift)
    {
      DataAreBytes();
      hide *;
      var b := NextByte(p + n - 1 - shift);
      PaddedOneMoreBe(data, length, p, n - 1 - shift, shift, v, b);
      value := PutBe(v, b, shift);
    }

    /** The next byte, the least significant one first. */
    method NextLe(v: nat, shift: nat, ghost p: nat) returns (value: nat)
      requires Valid() && AtByte(p + shift) && v == FromLe(PaddedBytes(data, length, p, shift))
      modifies this`position, this`isReadBeyondEnd
      ensures HasRead(p + shift + 1, old(isReadBeyondEnd))
      ensures value == FromLe(PaddedBytes(data, length, p, shift + 1))
    {
      DataAreBytes();
      hide *;
      var b := NextByte(p + shift);
      PaddedOneMoreLe(data, length, p, shift, v, b);
      value := PutBe(v, b, shift);
    }

    lemma DataAreBytes()
      requires Valid()
      ensures AreBytes(data)
    {
    }

    /** A stream that has read n bytes that are there has moved on by them. */
    lemma ReadIs(m: nat, before: bool)
      requires HasRead(m, before) && 8 * m <= length
      ensures Valid() && position == 8 * m && isReadBeyondEnd == before
    {
    }

    lemma CanReadThere(p: nat, n: nat)
      requires n > 0 && 8 * (p + n) <= length
      ensures CanRead(p, n)
    {
    }

    /** Four bytes. */
    method FourBe(v: nat, shift: nat, ghost p: nat, ghost n: nat) returns (value: nat)
      requires Valid() && 3 <= shift < n && position == Least(8 * (p + n - 1 - shift), length) &&
        CanRead(p, n - shift + 3)
      requires v == FromBe(PaddedBytes(data, length, p, n - 1 - shift)) * Pow256(shift + 1)
      modifies this`position, this`isReadBeyondEnd
      ensures HasRead(p + n - shift + 3, old(isReadBeyondEnd))
      ensures value == FromBe(PaddedBytes(data, length, p, n - shift + 3)) * Pow256(shift - 3)
    {
      hide FromBe, Pow256, AreBytes, PaddedBytes;
      value := NextBe(v, shift, p, n);
      value := NextBe(value, shift - 1, p, n);
      value := NextBe(value, shift - 2, p, n);
      value := NextBe(value, shift - 3, p, n);
    }

    method FourLe(v: nat, shift: nat, ghost p: nat) returns (value: nat)
      requires Valid() && position == Least(8 * (p + shift), length) && CanRead(p, shift + 4)
      requires v == FromLe(PaddedBytes(data, length, p, shift))
      modifies this`position, this`isReadBeyondEnd
      ensures HasRead(p + shift + 4, old(isReadBeyondEnd))
      ensures value == FromLe(PaddedBytes(data, length, p, shift + 4))
    {
      hide FromLe, Pow256, AreBytes, PaddedBytes;
      value := NextLe(v, shift, p);
      value := NextLe(value, shift + 1, p);
      value := NextLe(value, shift + 2, p);
      value := NextLe(value, shift + 3, p);
    }

    /** Reading n bytes from byte p on finds the stream at a whole byte each time: a stream may end within the last one,
        or earlier if it ends with a whole byte. */
    ghost predicate CanRead(p: nat, n: nat)
      requires n > 0
      reads this
    {
      8 * (p + n - 1) <= length || length % 8 == 0
    }

    lemma NothingRead(p: nat)
      ensures FromBe(PaddedBytes(data, length, p, 0)) == 0 == FromLe(PaddedBytes(data, length, p, 0)) && Pow256(0) == 1
    {
    }

    method ReadUint16Be() returns (value: nat)
      requires Valid() && position % 8 == 0 && CanRead(position / 8, 2)
      modifies this`position, this`isReadBeyondEnd
      ensures HasRead(old(position) / 8 + 2, old(isReadBeyondEnd))
      ensures value == FromBe(PaddedBytes(data, length, old(position) / 8, 2))
    {
      ghost var p := position / 8;
      NothingRead(p);
      hide FromBe, FromLe, Pow256, Or, PaddedBytes;
      value := 0;
      value := NextBe(value, 1, p, 2);
      value := NextBe(value, 0, p, 2);
    }

    method ReadUint16Le() returns (value: nat)
      requires Valid() && position % 8 == 0 && CanRead(position / 8, 2)
      modifies this`position, this`isReadBeyondEnd
      ensures HasRead(old(position) / 8 + 2, old(isReadBeyondEnd))
      ensures value == FromLe(PaddedBytes(data, length, old(position) / 8, 2))
    {
      ghost var p := position / 8;
      NothingRead(p);
      hide FromBe, FromLe, Pow256, Or, PaddedBytes;
      value := 0;
      value := NextLe(value, 0, p);
      value := NextLe(value, 1, p);
    }

    method ReadUint32Be() returns (value: nat)
      requires Valid() && position % 8 == 0 && CanRead(position / 8, 4)
      modifies this`position, this`isReadBeyondEnd
      ensures HasRead(old(position) / 8 + 4, old(isReadBeyondEnd))
      ensures value == FromBe(PaddedBytes(data, length, old(position) / 8, 4))
    {
      ghost var p := position / 8;
      NothingRead(p);
      hide FromBe, FromLe, Pow256, Or, PaddedBytes;
      value := 0;
      value := FourBe(value, 3, p, 4);
    }

    method ReadUint32Le() returns (value: nat)
      requires Valid() && position % 8 == 0 && CanRead(position / 8, 4)
      modifies this`position, this`isReadBeyondEnd
      ensures HasRead(old(position) / 8 + 4, old(isReadBeyondEnd))
      ensures value == FromLe(PaddedBytes(data, length, old(position) / 8, 4))
    {
      ghost var p := position / 8;
      NothingRead(p);
      hide FromBe, FromLe, Pow256, Or, PaddedBytes;
      value := 0;
      value := FourLe(value, 0, p);
    }

    method ReadUint64Be() returns (value: nat)
      requires Valid() && position % 8 == 0 && CanRead(position / 8, 8)
      modifies this`position, this`isReadBeyondEnd
      ensures HasRead(old(position) / 8 + 8, old(isReadBeyondEnd))
      ensures value == FromBe(PaddedBytes(data, length, old(position) / 8, 8))
    {
      ghost var p := position / 8;
      NothingRead(p);
      hide FromBe, FromLe, Pow256, Or, PaddedBytes;
      value := 0;
      value := FourBe(value, 7, p, 8);
      value := FourBe(value, 3, p, 8);
    }

    method ReadUint64Le() returns (value: nat)
      requires Valid() && position % 8 == 0 && CanRead(position / 8, 8)
      modifies this`position, this`isReadBeyondEnd
      ensures HasRead(old(position) / 8 + 8, old(isReadBeyondEnd))
      ensures value == FromLe(PaddedBytes(data, length, old(position) / 8, 8))
    {
      ghost var p := position / 8;
      NothingRead(p);
      hide FromBe, FromLe, Pow256, Or, PaddedBytes;
      value := 0;
      value := FourLe(value, 0, p);
      value := FourLe(value, 4, p);
    }

    /** The next bit, or a zero beyond the end, as part of a number. */
    method NextBit(v: nat, w: nat) returns (value: nat)
      requires Valid() && Or(v, w) == v + w
      modifies this`position, this`isReadBeyondEnd
      ensures Valid() && position == Least(old(position) + 1, length)
      ensures isReadBeyondEnd == (old(isReadBeyondEnd) || old(position) == length)
      ensures value == v + Weight(PaddedBit(data, length, old(position)), w)
    {
      hide Unpack, Or;
      value := v;
      var b := ReadBit();
      if b {
        value := Or(value, w);
      }
    }

    method ReadUint2() returns (value: nat)
      requires Valid()
      modifies this`position, this`isReadBeyondEnd
      ensures Valid() && position == Least(old(position) + 2, length)
      ensures isReadBeyondEnd == (old(isReadBeyondEnd) || old(position) + 2 > length)
      ensures value == Value2(PaddedBit(data, length, old(position)), PaddedBit(data, length, old(position) + 1))
    {
      hide Unpack, Or;
      SmallOrs();
      value := NextBit(0, 2);
      value := NextBit(value, 1);
    }

    method ReadUint4() returns (value: nat)
      requires Valid()
      modifies this`position, this`isReadBeyondEnd
      ensures Valid() && position == Least(old(position) + 4, length)
      ensures isReadBeyondEnd == (old(isReadBeyondEnd) || old(position) + 4 > length)
      ensures value == Value4(PaddedBit(data, length, old(position)), PaddedBit(data, length, old(position) + 1),
                              PaddedBit(data, length, old(position) + 2), PaddedBit(data, length, old(position) + 3))
    {
      hide Unpack, Or;
      SmallOrs();
      value := NextBit(0, 8);
      value := NextBit(value, 4);
      value := NextBit(value, 2);
      value := NextBit(value, 1);
    }
  }

  function Weight(b: bool, w: nat): nat { if b then w else 0 }

  function Value2(b1: bool, b0: bool): nat { Weight(b1, 2) + Weight(b0, 1) }

  function Value4(b3: bool, b2: bool, b1: bool, b0: bool): nat
  {
    Weight(b3, 8) + Weight(b2, 4) + Weight(b1, 2) + Weight(b0, 1)
  }

  lemma SmallOrs()
    ensures Or(0, 8) == 8 && Or(0, 4) == 4 && Or(8, 4) == 12
    ensures Or(0, 2) == 2 && Or(4, 2) == 6 && Or(8, 2) == 10 && Or(12, 2) == 14
    ensures Or(0, 1) == 1 && Or(2, 1) == 3 && Or(4, 1) == 5 && Or(6, 1) == 7 && Or(8, 1) == 9 && Or(10, 1) == 11 &&
      Or(12, 1) == 13 && Or(14, 1) == 15
  {
  }

  lemma LowestBit(v: nat, n: nat)
    ensures v % 2 == Weight(BitOf(v, 0), 1) && BitOf(v, n + 1) == BitOf(v / 2, n) && v == 2 * (v / 2) + v % 2
  {
    BitOfHalf(v, n);
  }

  lemma ModTwice(v: nat, k: nat)
    requires k > 0
    ensures v % (2 * k) == 2 * ((v / 2) % k) + v % 2
  {
    var q, r := DivMod(v / 2, k);
    assert q * (2 * k) == 2 * (q * k);
    DivIs(v, 2 * k, q, 2 * r + v % 2);
  }

  /** The low bits of a number give it back. */
  lemma TwoLowBits(v: nat)
    ensures Value2(BitOf(v, 1), BitOf(v, 0)) == v % 4
  {
    hide BitOf;
    ModTwice(v, 2);
    LowestBit(v, 0);
    LowestBit(v / 2, 0);
  }

  lemma LowBits(v: nat)
    ensures Value2(BitOf(v, 1), BitOf(v, 0)) == v % 4
    ensures Value4(BitOf(v, 3), BitOf(v, 2), BitOf(v, 1), BitOf(v, 0)) == v % 16
  {
    hide BitOf;
    TwoLowBits(v);
    ModTwice(v, 8);
    ModTwice(v / 2, 4);
    var w := v / 2 / 2;
    TwoLowBits(w);
    LowestBit(v, 1);
    LowestBit(v, 2);
    LowestBit(v / 2, 0);
    LowestBit(v / 2, 1);
  }

  // ----- Writing and reading lists of items --------------------------------------------------------------

  method WriteItem(s: MemoryOutputStream, item: Item)
    requires s.Valid() && GoodItem(item) && (ByteLevel(KindOf(item)) ==> s.length % 8 == 0)
    modifies s
    ensures s.Valid() && s.Contents() == old(s.Contents()) + Encode(item)
  {
    ghost var data, length := s.data, s.length;
    match item {
      case Bit(b) => s.WriteBit(b);
      case Bits(bits) => s.WriteBits(bits);
      case Uint2(v) => s.WriteUint2(v);
      case Uint4(v) => s.WriteUint4(v);
      case Bytes(bytes) =>
        BytesAppended(data, length, bytes);
        s.WriteBytes(bytes);
      case UintBe(size, v) =>
        BytesAppended(data, length, BytesBe(v, size));
        WriteBe(s, size, v);
      case UintLe(size, v) =>
        BytesAppended(data, length, BytesLe(v, size));
        WriteLe(s, size, v);
    }
  }

  method WriteBe(s: MemoryOutputStream, size: nat, v: nat)
    requires s.Valid() && s.length % 8 == 0 && size in {1, 2, 4, 8}
    modifies s
    ensures s.Valid() && s.data == old(s.data) + BytesBe(v, size) && s.length == old(s.length) + 8 * size
  {
    match size {
      case 1 =>
        assert BytesBe(v, 1) == [v % 256];
        s.WriteUint8(v % 256);
      case 2 => s.WriteUint16Be(v);
      case 4 => s.WriteUint32Be(v);
      case 8 => s.WriteUint64Be(v);
    }
  }

  method WriteLe(s: MemoryOutputStream, size: nat, v: nat)
    requires s.Valid() && s.length % 8 == 0 && size in {1, 2, 4, 8}
    modifies s
    ensures s.Valid() && s.data == old(s.data) + BytesLe(v, size) && s.length == old(s.length) + 8 * size
  {
    match size {
      case 1 =>
        assert BytesLe(v, 1) == [v % 256];
        s.WriteUint8(v % 256);
      case 2 => s.WriteUint16Le(v);
      case 4 => s.WriteUint32Le(v);
      case 8 => s.WriteUint64Le(v);
    }
  }

  method WriteAll(items: seq<Item>) returns (s: MemoryOutputStream)
    requires Aligned(items)
    ensures fresh(s) && s.Valid() && s.Contents() == EncodeAll(items)
  {
    s := new MemoryOutputStream();
    var k := 0;
    while k < |items|
      invariant 0 <= k <= |items| && fresh(s) && s.Valid() && s.Contents() == EncodeAll(items[..k])
    {
      NextItem(items, k);
      WriteItem(s, items[k]);
      k := k + 1;
    }
    assert items[..|items|] == items;
  }

  lemma Ahead(s: MemoryInputStream, bits: seq<bool>, i: nat)
    requires s.Valid() && bits <= s.Remaining() && i < |bits|
    ensures s.position + i < s.length && bits[i] == Unpack(s.data)[s.position + i]
  {
    assert bits[i] == s.Remaining()[i];
  }

  /** The next few bits, as one item. */
  method ReadBitLevel(s: MemoryInputStream, kind: Kind, ghost item: Item) returns (r: Item)
    requires s.Valid() && !s.isReadBeyondEnd && kind == KindOf(item) && !ByteLevel(kind) &&
      Encode(item) <= s.Remaining()
    modifies s`position, s`isReadBeyondEnd
    ensures s.Valid() && !s.isReadBeyondEnd && r == Reduced(item) && s.position == old(s.position) + |Encode(item)|
  {
    match kind {
      case BitKind =>
        Ahead(s, Encode(item), 0);
        var b := s.ReadBit();
        r := Bit(b);
      case BitsKind(n) =>
        assert s.Remaining()[..n] == item.bits;
        var bits := s.ReadBits(n);
        r := Bits(bits);
      case Uint2Kind =>
        LowBits(item.value);
        Ahead(s, Encode(item), 0);
        Ahead(s, Encode(item), 1);
        var v := s.ReadUint2();
        r := Uint2(v);
      case Uint4Kind =>
        LowBits(item.value);
        Ahead(s, Encode(item), 0);
        Ahead(s, Encode(item), 1);
        Ahead(s, Encode(item), 2);
        Ahead(s, Encode(item), 3);
        var v := s.ReadUint4();
        r := Uint4(v);
    }
  }

  /** The item that the next bits of the stream encode is the one that is read, as far as it fits its kind. */
  method ReadItem(s: MemoryInputStream, kind: Kind, ghost item: Item) returns (r: Item)
    requires s.Valid() && !s.isReadBeyondEnd && kind == KindOf(item) && GoodItem(item) &&
      (ByteLevel(kind) ==> s.position % 8 == 0)
    requires Encode(item) <= s.Remaining()
    modifies s`position, s`isReadBeyondEnd
    ensures s.Valid() && !s.isReadBeyondEnd && r == Reduced(item) && s.position == old(s.position) + |Encode(item)|
  {
    hide Unpack, BytesBe, BytesLe, FromBe, FromLe, BitOf;
    if !ByteLevel(kind) {
      r := ReadBitLevel(s, kind, item);
      return;
    }
    match kind {
      case BytesKind(n) =>
        BytesAhead(s, item.bytes);
        var bytes := s.ReadBytes(n);
        r := Bytes(bytes.value);
      case UintBeKind(size) =>
        BytesAhead(s, BytesBe(item.value, size));
        BeRoundTrip(item.value, size);
        var v := ReadBe(s, size);
        r := UintBe(size, v);
      case UintLeKind(size) =>
        BytesAhead(s, BytesLe(item.value, size));
        LeRoundTrip(item.value, size);
        var v := ReadLe(s, size);
        r := UintLe(size, v);
    }
  }

  lemma PrefixOfRest(all: seq<bool>, position: nat, length: nat, bits: seq<bool>)
    requires position <= length <= |all| && bits <= all[position..length]
    ensures position + |bits| <= length && all[position..position + |bits|] == bits
  {
  }

  lemma BytesAt(data: seq<nat>, m: nat, bytes: seq<nat>)
    requires AreBytes(data) && AreBytes(bytes) && m + |bytes| <= |data| &&
      Unpack(data)[8 * m..8 * m + 8 * |bytes|] == Unpack(bytes)
    ensures data[m..m + |bytes|] == bytes
  {
    hide Unpack;
    UnpackSlice(data, m, |bytes|);
    UnpackIsInjective(data[m..m + |bytes|], bytes);
  }

  lemma BytesFrom(data: seq<nat>, m: nat, length: nat, bytes: seq<nat>)
    requires AreBytes(data) && AreBytes(bytes) && 8 * m <= length <= 8 * |data| &&
      Unpack(bytes) <= Unpack(data)[8 * m..length]
    ensures 8 * (m + |bytes|) <= length && data[m..m + |bytes|] == bytes
  {
    hide Unpack, AreBytes;
    PrefixOfRest(Unpack(data), 8 * m, length, Unpack(bytes));
    BytesAt(data, m, bytes);
  }

  lemma BytesAhead(s: MemoryInputStream, bytes: seq<nat>)
    requires s.Valid() && s.position % 8 == 0 && AreBytes(bytes) && Unpack(bytes) <= s.Remaining()
    ensures s.position + 8 * |bytes| <= s.length && s.position / 8 + |bytes| <= |s.data|
    ensures s.data[s.position / 8..s.position / 8 + |bytes|] == bytes
  {
    hide Unpack, AreBytes;
    assert s.position == 8 * (s.position / 8);
    s.DataAreBytes();
    BytesFrom(s.data, s.position / 8, s.length, bytes);
  }

  lemma OneByte(bytes: seq<nat>)
    requires |bytes| == 1
    ensures FromBe(bytes) == bytes[0] == FromLe(bytes)
  {
    assert bytes[..0] == [] == bytes[1..];
  }

  lemma BytesThere(s: MemoryInputStream, p: nat, n: nat)
    requires s.Valid() && 8 * (p + n) <= s.length
    ensures p + n <= |s.data| && PaddedBytes(s.data, s.length, p, n) == s.data[p..p + n]
  {
    PaddedIsData(s.data, s.length, p, n);
  }

  method ReadOne(s: MemoryInputStream) returns (v: nat)
    requires s.Valid() && s.position % 8 == 0 && s.position + 8 <= s.length
    modifies s`position, s`isReadBeyondEnd
    ensures s.Valid() && s.position == old(s.position) + 8 && s.isReadBeyondEnd == old(s.isReadBeyondEnd)
    ensures var bytes := s.data[old(s.position) / 8..old(s.position) / 8 + 1]; v == FromBe(bytes) == FromLe(bytes)
  {
    OneByte(s.data[s.position / 8..s.position / 8 + 1]);
    v := s.ReadByte();
  }

  method ReadBe(s: MemoryInputStream, size: nat) returns (v: nat)
    requires s.Valid() && s.position % 8 == 0 && size in {1, 2, 4, 8} && s.position + 8 * size <= s.length
    modifies s`position, s`isReadBeyondEnd
    ensures s.Valid() && s.position == old(s.position) + 8 * size && s.isReadBeyondEnd == old(s.isReadBeyondEnd)
    ensures v == FromBe(s.data[old(s.position) / 8..old(s.position) / 8 + size])
  {
    hide *;
    ghost var p := s.position / 8;
    assert s.position == 8 * p;
    s.CanReadThere(p, size);
    s.DataAreBytes();
    BytesThere(s, p, size);
    match size {
      case 1 => v := ReadOne(s);
      case 2 =>
        v := s.ReadUint16Be();
        s.ReadIs(p + 2, old(s.isReadBeyondEnd));
      case 4 =>
        v := s.ReadUint32Be();
        s.ReadIs(p + 4, old(s.isReadBeyondEnd));
      case 8 =>
        v := s.ReadUint64Be();
        s.ReadIs(p + 8, old(s.isReadBeyondEnd));
    }
  }

  method ReadLe(s: MemoryInputStream, size: nat) returns (v: nat)
    requires s.Valid() && s.position % 8 == 0 && size in {1, 2, 4, 8} && s.position + 8 * size <= s.length
    modifies s`position, s`isReadBeyondEnd
    ensures s.Valid() && s.position == old(s.position) + 8 * size && s.isReadBeyondEnd == old(s.isReadBeyondEnd)
    ensures v == FromLe(s.data[old(s.position) / 8..old(s.position) / 8 + size])
  {
    hide *;
    ghost var p := s.position / 8;
    assert s.position == 8 * p;
    s.CanReadThere(p, size);
    s.DataAreBytes();
    BytesThere(s, p, size);
    match size {
      case 1 => v := ReadOne(s);
      case 2 =>
        v := s.ReadUint16Le();
        s.ReadIs(p + 2, old(s.isReadBeyondEnd));
      case 4 =>
        v := s.ReadUint32Le();
        s.ReadIs(p + 4, old(s.isReadBeyondEnd));
      case 8 =>
        v := s.ReadUint64Le();
        s.ReadIs(p + 8, old(s.isReadBeyondEnd));
    }
  }

  /** Whatever list of items is written, with the byte-level ones aligned, reading the same kinds in the same order
      gives the items back, ends exactly at the end of the stream, and never reads beyond it. */
  method RoundTrip(items: seq<Item>) returns (result: seq<Item>, position: nat, length: nat, beyond: bool)
    requires Aligned(items)
    ensures |result| == |items| && forall k :: 0 <= k < |items| ==> result[k] == Reduced(items[k])
    ensures position == length == |EncodeAll(items)| && !beyond
  {
    hide EncodeAll, Encode, Aligned, Unpack, Reduced;
    var out := WriteAll(items);
    var s := new MemoryInputStream(out.data, out.length, 0);
    result := [];
    ghost var all := EncodeAll(items);
    assert Unpack(s.data)[..s.length] == all;
    NothingYet(items);
    while |result| < |items|
      invariant |result| <= |items| && s.Valid() && !s.isReadBeyondEnd && fresh(s) && s.length == |all| &&
        Unpack(s.data)[..s.length] == all
      invariant s.position == |EncodeAll(items[..|result|])|
      invariant forall k :: 0 <= k < |result| ==> result[k] == Reduced(items[k])
    {
      var k := |result|;
      NextItem(items, k);
      AlignedPrefix(items, k);
      AlignedPrefix(items, k + 1);
      ItemAhead(items, k, s.Remaining());
      var item := ReadItem(s, KindOf(items[k]), items[k]);
      result := result + [item];
      assert |EncodeAll(items[..k + 1])| == |EncodeAll(items[..k])| + |Encode(items[k])|;
    }
    assert items[..|items|] == items;
    position, length, beyond := s.position, s.length, s.isReadBeyondEnd;
  }

  lemma NothingYet(items: seq<Item>)
    ensures EncodeAll(items[..0]) == []
  {
  }

  lemma ItemAhead(items: seq<Item>, k: nat, rest: seq<bool>)
    requires Aligned(items) && k < |items| && |EncodeAll(items[..k])| <= |EncodeAll(items)| &&
      rest == EncodeAll(items)[|EncodeAll(items[..k])|..]
    ensures Encode(items[k]) <= rest
  {
    NextItem(items, k);
    AlignedPrefix(items, k + 1);
    var a, b := |EncodeAll(items[..k])|, |EncodeAll(items[..k + 1])|;
    assert EncodeAll(items)[..b][a..] == Encode(items[k]);
  }
}
