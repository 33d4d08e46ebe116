/** The bytes of a header copy and the layout of a ring file (encodeHeader, decodeHeader, colOff and ringFileSize in ring.go). */
module HeaderCodec {
  import opened Types
  import opened Bytes
  import Disk

  const HEADER_SIZE := 4096
  const DATA_START := 2 * HEADER_SIZE
  const COL_BYTES := 4 * MINUTES
  const KEY_SLOT := 64
  const FORMAT_VERSION := 1

  const OFF_VERSION := 8
  const OFF_MINUTES := 12
  const OFF_FORGOTTEN := 16
  const OFF_NAME_LEN := 24
  const OFF_NAME := 26
  const OFF_NSERIES := OFF_NAME + MAX_ITEM_LEN
  const OFF_KEYS := OFF_NSERIES + 4
  const OFF_NUMBER := OFF_KEYS + MAX_SERIES * KEY_SLOT
  const OFF_CRC := OFF_NUMBER + 8
  const HEADER_LEN := OFF_CRC + 4

  /** "RCSTATS" and a zero byte. */
  const MAGIC: seq<Byte> := [82, 67, 83, 84, 65, 84, 83, 0]

  datatype RawHeader = RawHeader(version: nat, minutes: nat, forgotten: int, name: string, keys: seq<string>, number: nat)

  datatype Decoding = Decoded(h: RawHeader) | Corrupt | WrongVersion

  // ---------------------------------------------------------------- encoding

  function Padded(s: seq<Byte>, n: nat): (r: seq<Byte>)
    ensures |r| == n
  {
    if |s| >= n then s[..n] else s + Zeros(n - |s|)
  }

  /** A length byte and the bytes of the key. */
  function KeySlot(k: string): (s: seq<Byte>)
    ensures |s| == KEY_SLOT
  {
    [|k| % 256] + Padded(ToBytes(k), KEY_SLOT - 1)
  }

  /** n key slots, zero past the last key. */
  function KeySlots(keys: seq<string>, n: nat): (s: seq<Byte>)
    ensures |s| == n * KEY_SLOT
  {
    if n == 0 then [] else KeySlots(keys, n - 1) + if n - 1 < |keys| then KeySlot(keys[n - 1]) else Zeros(KEY_SLOT)
  }

  function OffsetOf(k: nat): nat
    requires k <= 9
  {
    if k == 0 then 0
    else if k == 1 then OFF_VERSION
    else if k == 2 then OFF_MINUTES
    else if k == 3 then OFF_FORGOTTEN
    else if k == 4 then OFF_NAME_LEN
    else if k == 5 then OFF_NAME
    else if k == 6 then OFF_NSERIES
    else if k == 7 then OFF_KEYS
    else if k == 8 then OFF_NUMBER
    else OFF_CRC
  }

  /** The fields before the checksum, in order. */
  function FieldBytes(h: RawHeader, k: nat): (s: seq<Byte>)
    requires k < 9
    ensures |s| == OffsetOf(k + 1) - OffsetOf(k)
  {
    if k == 0 then MAGIC
    else if k == 1 then Little(h.version, 4)
    else if k == 2 then Little(h.minutes, 4)
    else if k == 3 then Little(Unsigned(h.forgotten), 8)
    else if k == 4 then Little(|h.name|, 2)
    else if k == 5 then Padded(ToBytes(h.name), MAX_ITEM_LEN)
    else if k == 6 then Little(|h.keys|, 4)
    else if k == 7 then KeySlots(h.keys, MAX_SERIES)
    else Little(h.number, 8)
  }

  /** The first k fields, one after the other: each starts at its offset, so none overlaps another. */
  function Prefix(h: RawHeader, k: nat): (s: seq<Byte>)
    requires k <= 9
    ensures |s| == OffsetOf(k)
  {
    if k == 0 then [] else Prefix(h, k - 1) + FieldBytes(h, k - 1)
  }

  function Encoded(h: RawHeader): (s: seq<Byte>)
    ensures |s| == HEADER_SIZE
  {
    Prefix(h, 9) + Little(Checksum(Prefix(h, 9)), 4) + Zeros(HEADER_SIZE - HEADER_LEN)
  }

  /** The buffer holds p and zeros after it. */
  ghost predicate Filled(b: array<Byte>, p: seq<Byte>)
    reads b
  {
    b.Length == HEADER_SIZE && |p| <= HEADER_SIZE && b[..] == p + Zeros(HEADER_SIZE - |p|)
  }

  lemma SpliceFills(p: seq<Byte>, d: seq<Byte>, n: nat, size: nat)
    requires |p| + |d| <= |p| + n <= size
    ensures Splice(p + Zeros(size - |p|), |p|, d) == p + (d + Zeros(n - |d|)) + Zeros(size - |p| - n)
  {
  }

  /** Writes d at the end of what the buffer holds, in a field of n bytes. */
  method Append(b: array<Byte>, off: nat, d: seq<Byte>, n: nat, ghost p: seq<Byte>)
    requires Filled(b, p) && off == |p| && |d| <= n && off + n <= HEADER_SIZE
    modifies b
    ensures Filled(b, p + (d + Zeros(n - |d|)))
  {
    SpliceFills(p, d, n, HEADER_SIZE);
    CopyInto(b, off, d);
    assert |p + (d + Zeros(n - |d|))| == off + n;
  }

  lemma NothingMissing(d: seq<Byte>)
    ensures d + Zeros(0) == d
  {
  }

  /** Writes field k, n bytes long, from the first bytes of it that are not zero. */
  method AppendField(b: array<Byte>, h: RawHeader, k: nat, d: seq<Byte>)
    requires k < 9 && Filled(b, Prefix(h, k)) && |d| <= |FieldBytes(h, k)|
    requires d + Zeros(|FieldBytes(h, k)| - |d|) == FieldBytes(h, k)
    modifies b
    ensures Filled(b, Prefix(h, k + 1))
  {
    ghost var p := Prefix(h, k);
    assert Prefix(h, k + 1) == p + FieldBytes(h, k);
    hide Prefix, FieldBytes;
    Append(b, OffsetOf(k), d, OffsetOf(k + 1) - OffsetOf(k), p);
  }

  lemma EmptyFilled(b: array<Byte>, h: RawHeader)
    requires b.Length == HEADER_SIZE && forall i :: 0 <= i < HEADER_SIZE ==> b[i] == 0
    ensures Filled(b, Prefix(h, 0))
  {
  }

  /** The name, cut at its field. */
  method EncodeName(b: array<Byte>, h: RawHeader)
    requires Filled(b, Prefix(h, 5))
    modifies b
    ensures Filled(b, Prefix(h, 6))
  {
    hide Prefix, Filled, ToBytes;
    var name := ToBytes(h.name);
    var d := if |name| > MAX_ITEM_LEN then name[..MAX_ITEM_LEN] else name;
    NothingMissing(d);
    AppendField(b, h, 5, d);
  }

  /** The key slots one after the other, those past the last one left at zero. */
  method EncodeKeys(b: array<Byte>, h: RawHeader)
    requires Filled(b, Prefix(h, 7))
    modifies b
    ensures Filled(b, Prefix(h, 8))
  {
    hide Prefix, Filled, KeySlots, KeySlot;
    ghost var p := Prefix(h, 7);
    var n := Min(|h.keys|, MAX_SERIES);
    NoSlots(h.keys, p);
    for i := 0 to n
      invariant Filled(b, p + KeySlots(h.keys, i))
    {
      EncodeKey(b, OFF_KEYS + i * KEY_SLOT, h.keys[i], p + KeySlots(h.keys, i));
      NextSlot(h.keys, i, p);
    }
    FilledMore(b, p + KeySlots(h.keys, n), (MAX_SERIES - n) * KEY_SLOT);
    AllSlots(h.keys, n, p);
    LastOfPrefix(h, 7);
  }

  lemma NoSlots(keys: seq<string>, p: seq<Byte>)
    ensures p + KeySlots(keys, 0) == p
  {
  }

  lemma NextSlot(keys: seq<string>, i: nat, p: seq<Byte>)
    requires i < |keys|
    ensures p + KeySlots(keys, i) + KeySlot(keys[i]) == p + KeySlots(keys, i + 1)
  {
    hide KeySlot;
  }

  lemma AllSlots(keys: seq<string>, n: nat, p: seq<Byte>)
    requires n == Min(|keys|, MAX_SERIES)
    ensures p + KeySlots(keys, n) + Zeros((MAX_SERIES - n) * KEY_SLOT) == p + KeySlots(keys, MAX_SERIES)
  {
    RestZero(keys, n, MAX_SERIES);
    hide KeySlots, Zeros;
  }

  lemma LastOfPrefix(h: RawHeader, k: nat)
    requires k < 9
    ensures Prefix(h, k + 1) == Prefix(h, k) + FieldBytes(h, k)
  {
  }

  /** The length byte, then the key, cut at its slot. */
  method EncodeKey(b: array<Byte>, off: nat, key: string, ghost p: seq<Byte>)
    requires Filled(b, p) && off == |p| && off + KEY_SLOT <= HEADER_SIZE
    modifies b
    ensures Filled(b, p + KeySlot(key))
  {
    hide Filled, ToBytes;
    var name := ToBytes(key);
    var d := [|key| % 256] + if |name| > KEY_SLOT - 1 then name[..KEY_SLOT - 1] else name;
    assert d + Zeros(KEY_SLOT - |d|) == KeySlot(key);
    Append(b, off, d, KEY_SLOT, p);
  }

  lemma {:induction false} RestZero(keys: seq<string>, n: nat, m: nat)
    requires n <= m && (|keys| <= n || n == m)
    ensures KeySlots(keys, m) == KeySlots(keys, n) + Zeros((m - n) * KEY_SLOT)
  {
    hide Zeros, KeySlot;
    if n < m {
      RestZero(keys, n, m - 1);
      var rest := (m - 1 - n) * KEY_SLOT;
      ZerosTwice(rest, KEY_SLOT);
      assert rest + KEY_SLOT == (m - n) * KEY_SLOT;
    } else {
      NothingMissing(KeySlots(keys, n));
    }
  }

  lemma ZerosTwice(n: nat, m: nat)
    ensures Zeros(n) + Zeros(m) == Zeros(n + m)
  {
  }

  lemma FilledMore(b: array<Byte>, p: seq<Byte>, n: nat)
    requires Filled(b, p) && |p| + n <= HEADER_SIZE
    ensures Filled(b, p + Zeros(n))
  {
    assert Zeros(HEADER_SIZE - |p|) == Zeros(n) + Zeros(HEADER_SIZE - |p| - n);
  }

  method EncodeChecksum(b: array<Byte>, h: RawHeader)
    requires Filled(b, Prefix(h, 9))
    modifies b
    ensures b[..] == Encoded(h)
  {
    hide Prefix, Checksum, Little;
    assert b[..OFF_CRC] == Prefix(h, 9);
    var crc := Checksum(b[..OFF_CRC]);
    NothingMissing(Little(crc, 4));
    Append(b, OFF_CRC, Little(crc, 4), 4, Prefix(h, 9));
  }

  /** Every field at its offset in a zeroed buffer, the checksum last. */
  method EncodeHeader(h: RawHeader) returns (b: array<Byte>)
    ensures fresh(b) && b[..] == Encoded(h)
  {
    b := new Byte[HEADER_SIZE](_ => 0);
    EmptyFilled(b, h);
    hide Prefix, Checksum, Little, KeySlots, ToBytes, Padded, Filled;
    for k := 0 to 5
      invariant Filled(b, Prefix(h, k))
    {
      NothingMissing(FieldBytes(h, k));
      AppendField(b, h, k, FieldBytes(h, k));
    }
    EncodeName(b, h);
    NothingMissing(Little(|h.keys|, 4));
    AppendField(b, h, 6, Little(|h.keys|, 4));
    EncodeKeys(b, h);
    NothingMissing(Little(h.number, 8));
    AppendField(b, h, 8, Little(h.number, 8));
    EncodeChecksum(b, h);
  }

  // ---------------------------------------------------------------- decoding

  predicate KeyLengthOk(b: seq<Byte>, i: nat)
    requires i < MAX_SERIES && |b| >= HEADER_LEN
  {
    1 <= b[OFF_KEYS + i * KEY_SLOT] <= MAX_KEY_LEN
  }

  function KeyAt(b: seq<Byte>, i: nat): string
    requires i < MAX_SERIES && |b| >= HEADER_LEN && KeyLengthOk(b, i)
  {
    var at := OFF_KEYS + i * KEY_SLOT;
    ToString(Field(b, at + 1, b[at]))
  }

  function KeysAt(b: seq<Byte>, n: nat): (keys: seq<string>)
    requires n <= MAX_SERIES && |b| >= HEADER_LEN && forall i :: 0 <= i < n ==> KeyLengthOk(b, i)
    ensures |keys| == n && forall i :: 0 <= i < n ==> keys[i] == KeyAt(b, i)
  {
    seq(n, i requires 0 <= i < n => KeyAt(b, i))
  }

  function NumberAt(b: seq<Byte>, off: nat, n: nat): nat
    requires off + n <= |b|
  {
    FromLittle(Field(b, off, n))
  }

  function Decode(b: seq<Byte>): Decoding {
    if |b| < HEADER_LEN then Corrupt
    else if Field(b, 0, 8) != MAGIC then Corrupt
    else if Checksum(b[..OFF_CRC]) != NumberAt(b, OFF_CRC, 4) then Corrupt
    else if NumberAt(b, OFF_VERSION, 4) != FORMAT_VERSION then WrongVersion
    else if NumberAt(b, OFF_MINUTES, 4) != MINUTES then Corrupt
    else
      var nameLen, n := NumberAt(b, OFF_NAME_LEN, 2), NumberAt(b, OFF_NSERIES, 4);
      if nameLen < 1 || nameLen > MAX_ITEM_LEN then Corrupt
      else if n > MAX_SERIES then Corrupt
      else if exists i :: 0 <= i < n && !KeyLengthOk(b, i) then Corrupt
      else Decoded(RawHeader(FORMAT_VERSION, MINUTES, Signed(NumberAt(b, OFF_FORGOTTEN, 8)),
                             ToString(Field(b, OFF_NAME, nameLen)), KeysAt(b, n), NumberAt(b, OFF_NUMBER, 8)))
  }

  method DecodeHeader(b: seq<Byte>) returns (r: Decoding)
    ensures r == Decode(b)
  {
    hide Checksum, FromLittle;
    if |b| < HEADER_LEN {
      return Corrupt;
    }
    if Field(b, 0, 8) != MAGIC {
      return Corrupt;
    }
    if Checksum(b[..OFF_CRC]) != NumberAt(b, OFF_CRC, 4) {
      return Corrupt;
    }
    var version := NumberAt(b, OFF_VERSION, 4);
    if version != FORMAT_VERSION {
      return WrongVersion;
    }
    var minutes := NumberAt(b, OFF_MINUTES, 4);
    if minutes != MINUTES {
      return Corrupt;
    }
    var forgotten := Signed(NumberAt(b, OFF_FORGOTTEN, 8));
    var nameLen := NumberAt(b, OFF_NAME_LEN, 2);
    if nameLen < 1 || nameLen > MAX_ITEM_LEN {
      return Corrupt;
    }
    var name := ToString(Field(b, OFF_NAME, nameLen));
    var n := NumberAt(b, OFF_NSERIES, 4);
    if n > MAX_SERIES {
      return Corrupt;
    }
    var keys: seq<string> := [];
    for i := 0 to n
      invariant forall k :: 0 <= k < i ==> KeyLengthOk(b, k)
      invariant |keys| == i && forall k :: 0 <= k < i ==> keys[k] == KeyAt(b, k)
    {
      if !KeyLengthOk(b, i) {
        return Corrupt;
      }
      keys := keys + [KeyAt(b, i)];
    }
    r := Decoded(RawHeader(version, minutes, forgotten, name, keys, NumberAt(b, OFF_NUMBER, 8)));
  }

  // ---------------------------------------------------------------- round trip

  predicate NameFits(s: string, most: nat) {
    1 <= |s| <= most && IsBytes(s)
  }

  /** What the fields of the format can hold. */
  ghost predicate Encodable(h: RawHeader) {
    && h.version == FORMAT_VERSION && h.minutes == MINUTES
    && -(WORD / 2) <= h.forgotten < WORD / 2 && h.number < WORD
    && NameFits(h.name, MAX_ITEM_LEN)
    && |h.keys| <= MAX_SERIES && forall i :: 0 <= i < |h.keys| ==> NameFits(h.keys[i], MAX_KEY_LEN)
  }

  lemma {:induction false} PrefixLonger(h: RawHeader, j: nat, k: nat)
    requires j <= k <= 9
    ensures Prefix(h, j) <= Prefix(h, k)
  {
    if j < k {
      PrefixLonger(h, j, k - 1);
    }
  }

  /** Each field reads back from its offset. */
  lemma FieldReadsBack(h: RawHeader, k: nat)
    requires k < 9
    ensures Field(Encoded(h), OffsetOf(k), |FieldBytes(h, k)|) == FieldBytes(h, k)
  {
    hide Prefix, FieldBytes, Encoded;
    PrefixLonger(h, k + 1, 9);
    LastOfPrefix(h, k);
    PrefixOfEncoded(h);
    var e, p, d := Encoded(h), Prefix(h, k), FieldBytes(h, k);
    assert p + d <= Prefix(h, 9) <= e;
    Within(e, p, d);
  }

  lemma PrefixOfEncoded(h: RawHeader)
    ensures Prefix(h, 9) <= Encoded(h)
  {
    var p := Prefix(h, 9);
    hide Prefix, Checksum, Little, Zeros;
    var rest := Little(Checksum(p), 4) + Zeros(HEADER_SIZE - HEADER_LEN);
    assert Encoded(h) == p + rest;
  }

  lemma Within(e: seq<Byte>, p: seq<Byte>, d: seq<Byte>)
    requires p + d <= e
    ensures e[|p|..|p| + |d|] == d
  {
  }

  lemma Inner(e: seq<Byte>, off: nat, n: nat, lo: nat, hi: nat)
    requires lo <= hi <= n && off + n <= |e|
    ensures e[off..off + n][lo..hi] == e[off + lo..off + hi]
  {
    var part := e[off..off + n];
    forall k | 0 <= k < hi - lo ensures part[lo..hi][k] == e[off + lo..off + hi][k] {
      assert part[lo..hi][k] == part[lo + k] == e[off + (lo + k)];
    }
  }

  lemma ChecksumReadsBack(h: RawHeader)
    ensures Encoded(h)[..OFF_CRC] == Prefix(h, 9) && NumberAt(Encoded(h), OFF_CRC, 4) == Checksum(Prefix(h, 9))
  {
    var p := Prefix(h, 9);
    hide Prefix, Checksum;
    ChecksumFits(p);
    Powers();
    LittleRoundTrip(Checksum(p), 4);
    assert Field(Encoded(h), OFF_CRC, 4) == Little(Checksum(p), 4);
  }

  lemma NumberReadsBack(h: RawHeader, k: nat, v: nat)
    requires k < 9 && FieldBytes(h, k) == Little(v, OffsetOf(k + 1) - OffsetOf(k)) && v < Pow256(OffsetOf(k + 1) - OffsetOf(k))
    ensures NumberAt(Encoded(h), OffsetOf(k), OffsetOf(k + 1) - OffsetOf(k)) == v
  {
    FieldReadsBack(h, k);
    LittleRoundTrip(v, OffsetOf(k + 1) - OffsetOf(k));
  }

  lemma NameReadsBack(h: RawHeader)
    requires NameFits(h.name, MAX_ITEM_LEN)
    ensures ToString(Field(Encoded(h), OFF_NAME, |h.name|)) == h.name
  {
    FieldReadsBack(h, 5);
    StringRoundTrip(h.name);
    FieldStart(Encoded(h), OFF_NAME, |h.name|, MAX_ITEM_LEN);
    hide Encoded, Field;
  }

  lemma FieldStart(e: seq<Byte>, off: nat, n: nat, size: nat)
    requires n <= size && off + size <= |e|
    ensures Field(e, off, n) == Field(e, off, size)[..n]
  {
  }

  lemma {:induction false} SlotIn(keys: seq<string>, n: nat, i: nat)
    requires i < n && i < |keys|
    ensures (i + 1) * KEY_SLOT <= n * KEY_SLOT
    ensures KeySlots(keys, n)[i * KEY_SLOT..(i + 1) * KEY_SLOT] == KeySlot(keys[i])
  {
    hide KeySlot;
    var before, s := KeySlots(keys, n - 1), KeySlots(keys, n);
    if i < n - 1 {
      SlotIn(keys, n - 1, i);
      assert s[..|before|] == before;
      SliceOfStart(s, |before|, i * KEY_SLOT, (i + 1) * KEY_SLOT);
    } else {
      assert |before| == i * KEY_SLOT && s == before + KeySlot(keys[i]);
    }
  }

  lemma SliceOfStart(s: seq<Byte>, n: nat, lo: nat, hi: nat)
    requires lo <= hi <= n <= |s|
    ensures s[lo..hi] == s[..n][lo..hi]
  {
  }

  lemma KeyReadsBack(h: RawHeader, i: nat)
    requires i < |h.keys| <= MAX_SERIES && NameFits(h.keys[i], MAX_KEY_LEN)
    ensures KeyLengthOk(Encoded(h), i) && KeyAt(Encoded(h), i) == h.keys[i]
  {
    hide Encoded, KeySlots, KeySlot, ToBytes, ToString, Padded;
    AreaReadsBack(h);
    SlotIn(h.keys, MAX_SERIES, i);
    StringRoundTrip(h.keys[i]);
    var e, at, k := Encoded(h), OFF_KEYS + i * KEY_SLOT, h.keys[i];
    SlotOfArea(e, KeySlots(h.keys, MAX_SERIES), i, KeySlot(k));
    SlotReads(e, at, k);
  }

  lemma AreaReadsBack(h: RawHeader)
    ensures Field(Encoded(h), OFF_KEYS, MAX_SERIES * KEY_SLOT) == KeySlots(h.keys, MAX_SERIES)
  {
    hide Encoded, KeySlots;
    FieldReadsBack(h, 7);
  }

  lemma SlotOfArea(e: seq<Byte>, area: seq<Byte>, i: nat, slot: seq<Byte>)
    requires |e| == HEADER_SIZE && |area| == MAX_SERIES * KEY_SLOT && Field(e, OFF_KEYS, MAX_SERIES * KEY_SLOT) == area
    requires i < MAX_SERIES && area[i * KEY_SLOT..(i + 1) * KEY_SLOT] == slot
    ensures e[OFF_KEYS + i * KEY_SLOT..OFF_KEYS + i * KEY_SLOT + KEY_SLOT] == slot
  {
    Inner(e, OFF_KEYS, MAX_SERIES * KEY_SLOT, i * KEY_SLOT, (i + 1) * KEY_SLOT);
  }

  lemma SlotReads(e: seq<Byte>, at: nat, k: string)
    requires 1 <= |k| <= MAX_KEY_LEN && at + KEY_SLOT <= |e| && e[at..at + KEY_SLOT] == KeySlot(k)
    ensures e[at] == |k| && Field(e, at + 1, |k|) == ToBytes(k)
  {
    SlotHas(k);
    hide KeySlot, ToBytes;
    Inner(e, at, KEY_SLOT, 1, |k| + 1);
    assert e[at] == e[at..at + KEY_SLOT][0];
  }

  lemma SlotHas(k: string)
    requires 1 <= |k| <= MAX_KEY_LEN
    ensures KeySlot(k)[0] == |k| && KeySlot(k)[1..|k| + 1] == ToBytes(k)
  {
    hide ToBytes;
    var d, slot := ToBytes(k), KeySlot(k);
    assert slot[1..] == Padded(d, KEY_SLOT - 1);
    assert slot[1..|k| + 1] == slot[1..][..|k|];
  }

  lemma NumbersReadBack(h: RawHeader)
    requires Encodable(h)
    ensures var e := Encoded(h);
      && Field(e, 0, 8) == MAGIC
      && NumberAt(e, OFF_VERSION, 4) == FORMAT_VERSION && NumberAt(e, OFF_MINUTES, 4) == MINUTES
      && Signed(NumberAt(e, OFF_FORGOTTEN, 8)) == h.forgotten
      && NumberAt(e, OFF_NAME_LEN, 2) == |h.name| && NumberAt(e, OFF_NSERIES, 4) == |h.keys| && NumberAt(e, OFF_NUMBER, 8) == h.number
  {
    Powers();
    SignedRoundTrip(h.forgotten);
    hide Encoded, Pow256, FromLittle, Little;
    FieldReadsBack(h, 0);
    NumberReadsBack(h, 1, h.version);
    NumberReadsBack(h, 2, h.minutes);
    NumberReadsBack(h, 3, Unsigned(h.forgotten));
    NumberReadsBack(h, 4, |h.name|);
    NumberReadsBack(h, 6, |h.keys|);
    NumberReadsBack(h, 8, h.number);
  }

  lemma EncodableRoundTrips(h: RawHeader)
    requires Encodable(h)
    ensures Decode(Encoded(h)) == Decoded(h)
  {
    hide Encoded, NumberAt, Checksum, Field, Signed, ToString, FromLittle, Prefix;
    ChecksumReadsBack(h);
    NumbersReadBack(h);
    NameReadsBack(h);
    forall i: nat | i < |h.keys| ensures KeyLengthOk(Encoded(h), i) && KeyAt(Encoded(h), i) == h.keys[i] {
      KeyReadsBack(h, i);
    }
    hide KeyLengthOk, KeyAt;
    var keys := KeysAt(Encoded(h), |h.keys|);
    assert keys == h.keys;
  }

  /** Whatever decodes is a header the format can hold. */
  lemma DecodedIsEncodable(b: seq<Byte>)
    ensures Decode(b).Decoded? ==> Encodable(Decode(b).h)
  {
    if Decode(b).Decoded? {
      Powers();
      FromLittleBound(Field(b, OFF_FORGOTTEN, 8));
      FromLittleBound(Field(b, OFF_NUMBER, 8));
      var n := NumberAt(b, OFF_NSERIES, 4);
      forall i | 0 <= i < n ensures NameFits(KeysAt(b, n)[i], MAX_KEY_LEN) {
        assert KeyLengthOk(b, i);
      }
    }
  }

  /** A header survives exactly when the format can hold it. */
  lemma RoundTripIff(h: RawHeader)
    ensures Decode(Encoded(h)) == Decoded(h) <==> Encodable(h)
  {
    if Encodable(h) {
      EncodableRoundTrips(h);
    }
    DecodedIsEncodable(Encoded(h));
  }

  /** Long enough, with the magic bytes, and the checksum of what is before it. */
  predicate Sealed(b: seq<Byte>) {
    |b| >= 3370 && b[..8] == [82, 67, 83, 84, 65, 84, 83, 0] && Checksum(b[..3366]) == FromLittle(b[3366..3370])
  }

  /** Only sealed bytes decode; of those another version is told apart, whatever else is wrong with it. */
  lemma OnlySealedDecodes(b: seq<Byte>)
    ensures Decode(b).Decoded? ==> Sealed(b)
    ensures Decode(b).WrongVersion? <==> Sealed(b) && FromLittle(b[8..12]) != FORMAT_VERSION
  {
    hide Checksum, FromLittle;
  }

  lemma BadSeal(b: seq<Byte>)
    ensures |b| >= HEADER_LEN && Checksum(b[..OFF_CRC]) != NumberAt(b, OFF_CRC, 4) ==> Decode(b) == Corrupt
  {
    hide Checksum, FromLittle;
  }

  lemma DamagedBody(e: seq<Byte>, k: nat, x: Byte)
    requires |e| >= HEADER_LEN && k < OFF_CRC && x != e[k]
    ensures Checksum(e[k := x][..OFF_CRC]) != Checksum(e[..OFF_CRC])
    ensures NumberAt(e[k := x], OFF_CRC, 4) == NumberAt(e, OFF_CRC, 4)
  {
    hide Checksum, FromLittle;
    assert e[k := x][..OFF_CRC] == e[..OFF_CRC][k := x];
    assert Field(e[k := x], OFF_CRC, 4) == Field(e, OFF_CRC, 4);
    ChecksumSeesByte(e[..OFF_CRC], k, x);
  }

  lemma DamagedChecksum(e: seq<Byte>, k: nat, x: Byte)
    requires |e| >= HEADER_LEN && OFF_CRC <= k < HEADER_LEN && x != e[k]
    ensures Checksum(e[k := x][..OFF_CRC]) == Checksum(e[..OFF_CRC])
    ensures NumberAt(e[k := x], OFF_CRC, 4) != NumberAt(e, OFF_CRC, 4)
  {
    hide Checksum, FromLittle;
    assert e[k := x][..OFF_CRC] == e[..OFF_CRC];
    var stored, found := Field(e, OFF_CRC, 4), Field(e[k := x], OFF_CRC, 4);
    assert found[k - OFF_CRC] == x && stored[k - OFF_CRC] == e[k];
    if FromLittle(found) == FromLittle(stored) {
      LittleInjective(found, stored);
    }
  }

  /** Sealed bytes with one of them damaged, the checksum's own included, never decode; so neither does such a header copy. */
  lemma DamagedByteSeen(e: seq<Byte>, k: nat, x: Byte)
    requires Decode(e).Decoded? && k < HEADER_LEN && x != e[k]
    ensures Decode(e[k := x]) == Corrupt
  {
    OnlySealedDecodes(e);
    hide Checksum, FromLittle, Decode;
    if k < OFF_CRC {
      DamagedBody(e, k, x);
    } else {
      DamagedChecksum(e, k, x);
    }
    BadSeal(e[k := x]);
  }

  /** The header the ring code keeps, as the fields of the format. */
  function RawOf(h: Disk.Header): RawHeader {
    RawHeader(FORMAT_VERSION, MINUTES, h.forgotten, h.name, h.keys, h.number)
  }

  /** What a header copy with these bytes says. */
  function CopyOf(b: seq<Byte>): Disk.Copy {
    match Decode(b)
    case Decoded(h) => Disk.Decodes(Disk.Header(h.forgotten, h.name, h.keys, h.number))
    case _ => Disk.Torn
  }

  /** A header the ring writes is the header it finds again, as long as the format can hold it. */
  lemma WrittenCopyDecodes(h: Disk.Header)
    ensures CopyOf(Encoded(RawOf(h))) == Disk.Decodes(h) <==> Encodable(RawOf(h))
  {
    RoundTripIff(RawOf(h));
    hide Encoded, Encodable;
    var b := Encoded(RawOf(h));
    DecodedVersion(b);
  }

  lemma DecodedVersion(b: seq<Byte>)
    ensures Decode(b).Decoded? ==> Decode(b).h.version == FORMAT_VERSION && Decode(b).h.minutes == MINUTES
  {
  }

  // ---------------------------------------------------------------- layout

  function RingFileSize(n: nat): nat {
    DATA_START + COL_BYTES * (1 + 3 * n)
  }

  /** Byte offset of column c of series i. */
  function ColOff(i: nat, c: nat): nat {
    DATA_START + COL_BYTES * (1 + 3 * i + c)
  }

  /** Every word past the stamps, up to the size of the file, belongs to one slot of one column of one series, and each of those is there. */
  lemma ColumnsTile(n: nat, at: nat, i: nat, c: nat, slot: nat)
    requires c < 3 && slot < MINUTES
    ensures ColOff(i, c) + 4 * slot == DATA_START + COL_BYTES + 4 * Disk.ValueAt(i, c, slot)
    ensures i < n ==> ColOff(i, c) + 4 * slot + 4 <= RingFileSize(n)
    ensures RingFileSize(n) == DATA_START + COL_BYTES + 4 * Disk.ValueAt(n, 0, 0)
    ensures at == Disk.ValueAt(i, c, slot) <==> i == at / MINUTES / 3 && c == at / MINUTES % 3 && slot == at % MINUTES
    ensures at < Disk.ValueAt(n, 0, 0) <==> at / MINUTES / 3 < n
  {
  }
}
