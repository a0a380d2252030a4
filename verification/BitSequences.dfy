/** Bytes as sequences of bits, the most significant bit first, and what is written to and read from them. */
module BitSequences {
  import opened Words

  predicate AreBytes(data: seq<nat>) { forall i :: 0 <= i < |data| ==> data[i] < 256 }

  function ByteBits(x: nat): (r: seq<bool>)
    ensures |r| == 8 && forall i :: 0 <= i < 8 ==> r[i] == BitOf(x, 7 - i)
  {
    seq(8, i requires 0 <= i < 8 => BitOf(x, 7 - i))
  }

  /** The bits of the bytes. */
  function Unpack(data: seq<nat>): (r: seq<bool>)
    ensures |r| == 8 * |data|
  {
    if data == [] then [] else ByteBits(data[0]) + Unpack(data[1..])
  }

  lemma {:induction false} UnpackByte(data: seq<nat>, m: nat, k: nat)
    requires m < |data| && k < 8
    ensures Unpack(data)[8 * m + k] == BitOf(data[m], 7 - k)
  {
    hide BitOf;
    if m > 0 {
      UnpackByte(data[1..], m - 1, k);
    }
  }

  lemma UnpackAt(data: seq<nat>, i: nat)
    requires i < 8 * |data|
    ensures Unpack(data)[i] == BitOf(data[i / 8], 7 - i % 8)
  {
    hide Unpack, BitOf;
    UnpackByte(data, i / 8, i % 8);
    assert i == 8 * (i / 8) + i % 8;
  }

  lemma {:induction false} UnpackAppend(a: seq<nat>, b: seq<nat>)
    ensures Unpack(a + b) == Unpack(a) + Unpack(b)
  {
    if a == [] {
      assert a + b == b;
    } else {
      assert (a + b)[1..] == a[1..] + b;
      UnpackAppend(a[1..], b);
    }
  }

  lemma UnpackOne(x: nat)
    ensures Unpack([x]) == ByteBits(x)
  {
    assert [x][1..] == [];
  }

  // ----- Setting a bit of a byte -----------------------------------------------------------------

  lemma OrHalf(a: nat, b: nat)
    requires a != 0 && b != 0
    ensures Or(a, b) / 2 == Or(a / 2, b / 2) && (Or(a, b) % 2 == 1 <==> a % 2 == 1 || b % 2 == 1)
    ensures Or(a, b) != 0
  {
  }

  lemma NoBits(n: nat)
    ensures !BitOf(0, n)
  {
    DivIs(0, Pow2(n), 0, 0);
  }

  lemma {:induction false} BitOfOr(a: nat, b: nat, n: nat)
    ensures BitOf(Or(a, b), n) <==> BitOf(a, n) || BitOf(b, n)
    decreases n
  {
    if a == 0 || b == 0 {
      NoBits(n);
    } else {
      OrHalf(a, b);
      BitOfHalf(a, if n == 0 then 0 else n - 1);
      BitOfHalf(b, if n == 0 then 0 else n - 1);
      BitOfHalf(Or(a, b), if n == 0 then 0 else n - 1);
      hide BitOf, Or;
      if n > 0 {
        BitOfOr(a / 2, b / 2, n - 1);
      }
    }
  }

  lemma Pow2Half(k: nat)
    ensures Pow2(k) / 2 == (if k == 0 then 0 else Pow2(k - 1)) && (Pow2(k) % 2 == 1 <==> k == 0)
  {
  }

  lemma {:induction false} BitOfPow2(k: nat, n: nat)
    ensures BitOf(Pow2(k), n) <==> n == k
    decreases n
  {
    Pow2Half(k);
    BitOfHalf(Pow2(k), if n == 0 then 0 else n - 1);
    hide BitOf, Pow2;
    if n > 0 {
      if k == 0 {
        NoBits(n - 1);
      } else {
        BitOfPow2(k - 1, n - 1);
      }
    }
  }

  /** Setting bit i of the bytes, counted from the first byte's most significant one, sets that bit and no other. */
  function WithBitSet(data: seq<nat>, i: nat): (r: seq<nat>)
    requires i < 8 * |data|
    ensures |r| == |data|
  {
    data[i / 8 := Or(data[i / 8], Pow2(7 - i % 8))]
  }

  lemma ByteWithBit(x: nat, k: nat)
    requires x < 256 && k < 8
    ensures Or(x, Pow2(k)) < 256
  {
    assert Pow2(8) == 256 by {
      Pow2Four();
      Pow2Add(4, 4);
    }
    Pow2Next(k);
    Pow2Monotone(k + 1, 8);
    OrFits(x, Pow2(k), 8);
  }

  lemma ByteChanged(data: seq<nat>, m: nat, k: nat, m': nat, k': nat)
    requires m < |data| && m' < |data|
    ensures BitOf(data[m := Or(data[m], Pow2(k))][m'], k') <==> (m == m' && k == k') || BitOf(data[m'], k')
  {
    hide Or, Pow2, BitOf;
    BitOfOr(data[m], Pow2(k), k');
    BitOfPow2(k, k');
  }

  lemma WithBitSetAt(data: seq<nat>, m: nat, k: nat, m': nat, k': nat)
    requires m < |data| && k < 8 && m' < |data| && k' < 8
    ensures Unpack(data[m := Or(data[m], Pow2(7 - k))])[8 * m' + k'] ==
      ((m == m' && k == k') || Unpack(data)[8 * m' + k'])
  {
    hide Unpack, Or, Pow2, BitOf;
    UnpackByte(data[m := Or(data[m], Pow2(7 - k))], m', k');
    UnpackByte(data, m', k');
    ByteChanged(data, m, 7 - k, m', 7 - k');
  }

  lemma SamePlace(m: nat, k: nat, m': nat, k': nat)
    requires k < 8 && k' < 8
    ensures 8 * m + k == 8 * m' + k' <==> m == m' && k == k'
  {
  }

  lemma WithBitSetPlace(data: seq<nat>, i: nat, j: nat)
    requires i < 8 * |data| && j < 8 * |data|
    ensures Unpack(WithBitSet(data, i))[j] == (i == j || Unpack(data)[j])
  {
    hide *;
    Eighths(i);
    Eighths(j);
    SamePlace(i / 8, i % 8, j / 8, j % 8);
    SettingIs(data, i);
    WithBitSetAt(data, i / 8, i % 8, j / 8, j % 8);
  }

  lemma Eighths(i: nat)
    ensures i == 8 * (i / 8) + i % 8 && i % 8 < 8
  {
  }

  lemma SettingIs(data: seq<nat>, i: nat)
    requires i < 8 * |data|
    ensures WithBitSet(data, i) == data[i / 8 := Or(data[i / 8], Pow2(7 - i % 8))]
  {
  }

  lemma WithBitSetBytes(data: seq<nat>, m: nat, k: nat)
    requires m < |data| && k < 8 && AreBytes(data)
    ensures AreBytes(data[m := Or(data[m], Pow2(k))])
  {
    ByteWithBit(data[m], k);
    hide Or, Pow2;
  }

  lemma WithBitSetBits(data: seq<nat>, i: nat)
    requires i < 8 * |data|
    ensures Unpack(WithBitSet(data, i)) == Unpack(data)[i := true]
  {
    hide Unpack, WithBitSet;
    forall j | 0 <= j < 8 * |data| ensures Unpack(WithBitSet(data, i))[j] == Unpack(data)[i := true][j] {
      WithBitSetPlace(data, i, j);
    }
  }

  lemma WithBitSetIs(data: seq<nat>, i: nat)
    requires i < 8 * |data| && AreBytes(data)
    ensures Unpack(WithBitSet(data, i)) == Unpack(data)[i := true] && AreBytes(WithBitSet(data, i))
  {
    hide Unpack, Or, Pow2;
    WithBitSetBits(data, i);
    WithBitSetBytes(data, i / 8, 7 - i % 8);
  }

  // ----- Bytes are known by their bits --------------------------------------------------------------

  lemma {:induction false} SameBits(x: nat, y: nat, n: nat)
    requires forall k :: 0 <= k < n ==> BitOf(x, k) == BitOf(y, k)
    ensures x % Pow2(n) == y % Pow2(n)
    decreases n
  {
    if n > 0 {
      HalfDiv(x, n - 1);
      HalfDiv(y, n - 1);
      BitOfHalf(x, 0);
      BitOfHalf(y, 0);
      forall k | 0 <= k < n - 1 ensures BitOf(x / 2, k) == BitOf(y / 2, k) {
        BitOfHalf(x, k);
        BitOfHalf(y, k);
        assert BitOf(x, k + 1) == BitOf(y, k + 1);
      }
      hide BitOf, Pow2;
      SameBits(x / 2, y / 2, n - 1);
    }
  }

  lemma SameByte(x: nat, y: nat)
    requires x < 256 && y < 256 && ByteBits(x) == ByteBits(y)
    ensures x == y
  {
    hide BitOf, Pow2;
    Pow2Four();
    Pow2Add(4, 4);
    forall k | 0 <= k < 8 ensures BitOf(x, k) == BitOf(y, k) {
      assert ByteBits(x)[7 - k] == ByteBits(y)[7 - k];
    }
    SameBits(x, y, 8);
  }

  /** Different bytes have different bits. */
  lemma {:induction false} UnpackIsInjective(a: seq<nat>, b: seq<nat>)
    requires AreBytes(a) && AreBytes(b) && Unpack(a) == Unpack(b)
    ensures a == b
  {
    if a != [] && b != [] {
      assert Unpack(a)[..8] == ByteBits(a[0]) && Unpack(a)[8..] == Unpack(a[1..]);
      assert Unpack(b)[..8] == ByteBits(b[0]) && Unpack(b)[8..] == Unpack(b[1..]);
      SameByte(a[0], b[0]);
      UnpackIsInjective(a[1..], b[1..]);
    }
  }

  lemma InThree(s: seq<nat>, m: nat, n: nat)
    requires m + n <= |s|
    ensures s == s[..m] + (s[m..m + n] + s[m + n..])
  {
  }

  lemma UnpackSlice(data: seq<nat>, m: nat, n: nat)
    requires m + n <= |data|
    ensures 8 * (m + n) <= |Unpack(data)| && Unpack(data)[8 * m..8 * (m + n)] == Unpack(data[m..m + n])
  {
    hide Unpack;
    var a, b, c := data[..m], data[m..m + n], data[m + n..];
    InThree(data, m, n);
    UnpackAppend(a, b + c);
    UnpackAppend(b, c);
    var ua, ub, uc := Unpack(a), Unpack(b), Unpack(c);
    assert |ua| == 8 * m && |ub| == 8 * n;
    Middle(ua, ub, uc);
  }

  lemma Middle(a: seq<bool>, b: seq<bool>, c: seq<bool>)
    ensures (a + (b + c))[|a|..|a| + |b|] == b
  {
  }

  // ----- Numbers as bytes ----------------------------------------------------------------------------

  function Pow256(n: nat): (r: nat)
    ensures r > 0
  {
    if n == 0 then 1 else 256 * Pow256(n - 1)
  }

  /** The n lowest bytes of a number, the most significant one first. */
  function BytesBe(v: nat, n: nat): (r: seq<nat>)
    ensures |r| == n && AreBytes(r)
  {
    if n == 0 then [] else BytesBe(v / 256, n - 1) + [v % 256]
  }

  /** And the least significant one first. */
  function BytesLe(v: nat, n: nat): (r: seq<nat>)
    ensures |r| == n && AreBytes(r)
  {
    if n == 0 then [] else [v % 256] + BytesLe(v / 256, n - 1)
  }

  function FromBe(bytes: seq<nat>): nat {
    if bytes == [] then 0 else 256 * FromBe(bytes[..|bytes| - 1]) + bytes[|bytes| - 1]
  }

  function FromLe(bytes: seq<nat>): nat {
    if bytes == [] then 0 else bytes[0] + 256 * FromLe(bytes[1..])
  }

  lemma ModPow256(v: nat, n: nat)
    ensures v % Pow256(n + 1) == 256 * ((v / 256) % Pow256(n)) + v % 256
  {
    var q, r := DivMod(v / 256, Pow256(n));
    assert v == q * Pow256(n + 1) + (256 * r + v % 256) by {
      assert q * (256 * Pow256(n)) == 256 * (q * Pow256(n));
    }
    DivIs(v, Pow256(n + 1), q, 256 * r + v % 256);
  }

  /** Reading the bytes of a number gives the number back, as far as the bytes reach. */
  lemma {:induction false} BeRoundTrip(v: nat, n: nat)
    ensures FromBe(BytesBe(v, n)) == v % Pow256(n)
  {
    if n > 0 {
      BeRoundTrip(v / 256, n - 1);
      ModPow256(v, n - 1);
      assert BytesBe(v, n)[..n - 1] == BytesBe(v / 256, n - 1);
    }
  }

  lemma {:induction false} LeRoundTrip(v: nat, n: nat)
    ensures FromLe(BytesLe(v, n)) == v % Pow256(n)
  {
    if n > 0 {
      LeRoundTrip(v / 256, n - 1);
      ModPow256(v, n - 1);
      assert BytesLe(v, n)[1..] == BytesLe(v / 256, n - 1);
    }
  }

  /** The two orders are each other's reverse. */
  lemma {:induction false} OrdersAreReverse(v: nat, n: nat, i: nat)
    requires i < n
    ensures BytesBe(v, n)[i] == BytesLe(v, n)[n - 1 - i]
  {
    if i < n - 1 {
      OrdersAreReverse(v / 256, n - 1, i);
    }
  }

  // ----- Items ------------------------------------------------------------------------------------------

  /** What can be written at once: bits, numbers of two or four bits, bytes, and numbers of several bytes in both
      orders. */
  datatype Item =
    | Bit(bit: bool)
    | Bits(bits: seq<bool>)
    | Uint2(value: nat)
    | Uint4(value: nat)
    | Bytes(bytes: seq<nat>)
    | UintBe(size: nat, value: nat)
    | UintLe(size: nat, value: nat)

  datatype Kind =
    | BitKind
    | BitsKind(n: nat)
    | Uint2Kind
    | Uint4Kind
    | BytesKind(n: nat)
    | UintBeKind(size: nat)
    | UintLeKind(size: nat)

  function KindOf(item: Item): Kind {
    match item
    case Bit(b) => BitKind
    case Bits(bits) => BitsKind(|bits|)
    case Uint2(v) => Uint2Kind
    case Uint4(v) => Uint4Kind
    case Bytes(bytes) => BytesKind(|bytes|)
    case UintBe(size, v) => UintBeKind(size)
    case UintLe(size, v) => UintLeKind(size)
  }

  predicate ByteLevel(kind: Kind) { kind.BytesKind? || kind.UintBeKind? || kind.UintLeKind? }

  predicate GoodKind(kind: Kind) { kind.UintBeKind? || kind.UintLeKind? ==> kind.size in {1, 2, 4, 8} }

  predicate GoodItem(item: Item) { GoodKind(KindOf(item)) && (item.Bytes? ==> AreBytes(item.bytes)) }

  /** The item as it can be read back: a number that is too large has lost its upper bits. */
  function Reduced(item: Item): Item {
    match item
    case Uint2(v) => Uint2(v % 4)
    case Uint4(v) => Uint4(v % 16)
    case UintBe(size, v) => UintBe(size, v % Pow256(size))
    case UintLe(size, v) => UintLe(size, v % Pow256(size))
    case _ => item
  }

  function Encode(item: Item): seq<bool> {
    match item
    case Bit(b) => [b]
    case Bits(bits) => bits
    case Uint2(v) => [BitOf(v, 1), BitOf(v, 0)]
    case Uint4(v) => [BitOf(v, 3), BitOf(v, 2), BitOf(v, 1), BitOf(v, 0)]
    case Bytes(bytes) => Unpack(bytes)
    case UintBe(size, v) => Unpack(BytesBe(v, size))
    case UintLe(size, v) => Unpack(BytesLe(v, size))
  }

  /** The number that the bits write, the most significant one first. */
  function BitsValue(bits: seq<bool>): nat {
    if bits == [] then 0 else 2 * BitsValue(bits[..|bits| - 1]) + if bits[|bits| - 1] then 1 else 0
  }

  lemma {:induction false} BitsOf(v: nat, bits: seq<bool>)
    requires forall i :: 0 <= i < |bits| ==> bits[i] == BitOf(v, |bits| - 1 - i)
    ensures BitsValue(bits) == v % Pow2(|bits|)
    decreases |bits|
  {
    if bits == [] {
      ModOne(v);
    } else {
      var n := |bits| - 1;
      HalfDiv(v, n);
      BitOfHalf(v, 0);
      hide BitOf, Pow2;
      forall i | 0 <= i < n ensures bits[..n][i] == BitOf(v / 2, n - 1 - i) {
        BitOfHalf(v, n - 1 - i);
        assert bits[i] == BitOf(v, n - 1 - i + 1);
      }
      BitsOf(v / 2, bits[..n]);
    }
  }

  lemma {:induction false} BitsValueJoined(a: seq<bool>, b: seq<bool>)
    ensures BitsValue(a + b) == BitsValue(a) * Pow2(|b|) + BitsValue(b)
    decreases |b|
  {
    if b == [] {
      assert a + b == a;
    } else {
      var n := |b| - 1;
      Pow2Next(n);
      BitsValueJoined(a, b[..n]);
      assert (a + b)[..|a + b| - 1] == a + b[..n];
      assert BitsValue(a) * (2 * Pow2(n)) == 2 * (BitsValue(a) * Pow2(n));
    }
  }

  lemma ByteValue(x: nat)
    requires x < 256
    ensures BitsValue(ByteBits(x)) == x && Pow2(8) == 256
  {
    Pow2Four();
    Pow2Add(4, 4);
    hide BitOf, Pow2, BitsValue;
    BitsOf(x, ByteBits(x));
  }

  lemma {:induction false} BytesValue(bytes: seq<nat>)
    requires AreBytes(bytes)
    ensures BitsValue(Unpack(bytes)) == FromBe(bytes)
    decreases |bytes|
  {
    if bytes != [] {
      var n := |bytes| - 1;
      hide Unpack, BitsValue, Pow2, ByteBits;
      BytesValue(bytes[..n]);
      assert bytes == bytes[..n] + [bytes[n]];
      UnpackAppend(bytes[..n], [bytes[n]]);
      UnpackOne(bytes[n]);
      BitsValueJoined(Unpack(bytes[..n]), ByteBits(bytes[n]));
      ByteValue(bytes[n]);
    } else {
      assert Unpack(bytes) == [];
    }
  }

  /** As far as the bits reach, what is written as a number is that number, the most significant bit first. */
  lemma NumbersAreWritten(v: nat, size: nat)
    ensures BitsValue(Encode(Uint2(v))) == v % 4 && BitsValue(Encode(Uint4(v))) == v % 16
    ensures BitsValue(Encode(UintBe(size, v))) == v % Pow256(size)
  {
    assert Pow2(2) == 4 && Pow2(4) == 16 by {
      Pow2Four();
    }
    hide BitOf, Pow2, BitsValue, Unpack;
    BitsOf(v, Encode(Uint2(v)));
    BitsOf(v, Encode(Uint4(v)));
    BytesValue(BytesBe(v, size));
    BeRoundTrip(v, size);
  }

  function EncodeAll(items: seq<Item>): seq<bool> {
    if items == [] then [] else EncodeAll(items[..|items| - 1]) + Encode(items[|items| - 1])
  }

  /** The byte-level items start at a multiple of eight bits. */
  predicate Aligned(items: seq<Item>) {
    items == [] ||
    (Aligned(items[..|items| - 1]) && GoodItem(items[|items| - 1]) &&
     (ByteLevel(KindOf(items[|items| - 1])) ==> |EncodeAll(items[..|items| - 1])| % 8 == 0))
  }

  lemma {:induction false} AlignedPrefix(items: seq<Item>, k: nat)
    requires Aligned(items) && k <= |items|
    ensures Aligned(items[..k]) && |EncodeAll(items[..k])| <= |EncodeAll(items)|
    ensures EncodeAll(items[..k]) == EncodeAll(items)[..|EncodeAll(items[..k])|]
    decreases |items|
  {
    if k == |items| {
      assert items[..k] == items;
    } else {
      var init := items[..|items| - 1];
      AlignedPrefix(init, k);
      assert init[..k] == items[..k];
      assert EncodeAll(items)[..|EncodeAll(init)|] == EncodeAll(init);
    }
  }

  lemma NextItem(items: seq<Item>, k: nat)
    requires Aligned(items) && k < |items|
    ensures GoodItem(items[k]) && (ByteLevel(KindOf(items[k])) ==> |EncodeAll(items[..k])| % 8 == 0)
    ensures EncodeAll(items[..k + 1]) == EncodeAll(items[..k]) + Encode(items[k])
  {
    AlignedPrefix(items, k + 1);
    assert items[..k + 1][..k] == items[..k] && items[..k + 1][k] == items[k];
  }
}
