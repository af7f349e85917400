/**
 * The Unipi EEPROM property table of board/unipi/common/unipi_eprom.c.
 *
 * A descriptor holds twelve specdata headers of two bytes each; header i
 * describes a property whose data starts, in the data area, right after
 * the data of headers 0..i-1. The type of a property is ten bits: the
 * header's type byte plus the two top bits of its length byte, which
 * leaves six bits of length. The data area is `size` bytes long
 * (`specdata_size`, twice the EEPROM bank size).
 */
module UnipiEeprom {
  import opened Wrappers

  /** The number of specdata headers in a descriptor. */
  const SpecdataCount: nat := 12

  // Property types (specdata_header_t.field_type).
  const FieldTypeButton: int := 4
  const FieldTypeRtc: int := 5
  const FieldTypeMac: int := 6
  const FieldTypeAical: int := 7
  const FieldTypeMac1: int := 8
  const FieldTypeModem: int := 9

  /** sizeof(unsigned long) on the 64-bit boards: the widest integer property. */
  const ULongSize: int := 8

  /** The value of an erased (never programmed) 32-bit EEPROM word. */
  const Erased: bv32 := 0xffff_ffff

  datatype Header = Header(fieldType: bv8, fieldLen: bv8)

  /** The parts of `uniee_descriptor_area` the decoder reads. */
  datatype Descriptor = Descriptor(headers: seq<Header>, productSerial: bv32, sku: bv32, modelStr: seq<bv8>)
  {
    predicate Valid() { |headers| == SpecdataCount }
  }

  /** Where a property was found (an offset into the data area, or NULL) and the length reported with it. */
  datatype Lookup = Lookup(ptr: Option<nat>, len: int)

  function Min(a: int, b: int): int
  {
    if a <= b then a else b
  }

  /** The ten-bit property type of a header. */
  function TypeOf(h: Header): (t: bv16)
    ensures t < 0x400
    ensures t & 0xff == h.fieldType as bv16 && t >> 8 == (h.fieldLen >> 6) as bv16
  {
    (h.fieldType as bv16) | (((h.fieldLen & 0xc0) as bv16) << 2)
  }

  /** The six-bit data length of a header. */
  function LenOf(h: Header): (n: int)
    ensures 0 <= n < 0x40 && n == LowBits(h.fieldLen) as int
  {
    LowBits(h.fieldLen) as int
  }

  /** The low six bits of a length byte. */
  function LowBits(b: bv8): (r: bv8)
    ensures r < 0x40 && r | (b & 0xc0) == b
  {
    b & 0x3f
  }

  /** Type and length together determine the header: no two headers decode alike. */
  lemma HeaderDecodeInjective(h1: Header, h2: Header)
    requires TypeOf(h1) == TypeOf(h2) && LenOf(h1) == LenOf(h2)
    ensures h1 == h2
  {
    assert LowBits(h1.fieldLen) == LowBits(h2.fieldLen);
    assert h1.fieldLen & 0xc0 == h2.fieldLen & 0xc0 by {
      assert (h1.fieldLen >> 6) as bv16 == (h2.fieldLen >> 6) as bv16;
    }
  }

  /** The offset of the data of header i: the sum of the lengths of the headers before it. */
  function Offset(hs: seq<Header>, i: nat): (off: nat)
    requires i <= |hs|
    ensures off <= 0x3f * i
  {
    if i == 0 then 0 else Offset(hs, i - 1) + LenOf(hs[i - 1])
  }

  /** Header j neither matches `prop` nor runs past the data area: the search goes on past it. */
  predicate Passes(hs: seq<Header>, size: int, prop: int, j: nat)
    requires j < |hs|
  {
    Offset(hs, j) + LenOf(hs[j]) < size && TypeOf(hs[j]) as int != prop
  }

  /** The search of `unipi_eeprom_find_property` from header i on. */
  function FindFrom(hs: seq<Header>, size: int, prop: int, i: nat): (r: Lookup)
    requires i < |hs|
    ensures 0 <= r.len < 0x40
    ensures r.ptr.Some? ==> r.ptr.value + r.len < size
    decreases |hs| - i
  {
    var n := LenOf(hs[i]);
    if Offset(hs, i) + n >= size then Lookup(None, n)
    else if TypeOf(hs[i]) as int == prop then Lookup(Some(Offset(hs, i)), n)
    else if i + 1 == |hs| then Lookup(None, n)
    else FindFrom(hs, size, prop, i + 1)
  }

  /** The result of `unipi_eeprom_find_property`. */
  function Find(d: Descriptor, size: int, prop: int): (r: Lookup)
    requires d.Valid()
  {
    FindFrom(d.headers, size, prop, 0)
  }

  /** The search passes over headers that neither match nor overflow. */
  lemma {:induction false} FindFromSkips(hs: seq<Header>, size: int, prop: int, i: nat, k: nat)
    requires i <= k < |hs|
    requires forall j :: i <= j < k ==> Passes(hs, size, prop, j)
    ensures FindFrom(hs, size, prop, i) == FindFrom(hs, size, prop, k)
    decreases k - i
  {
    if i < k {
      assert Passes(hs, size, prop, i);
      FindFromSkips(hs, size, prop, i + 1, k);
    }
  }

  /** The first header whose type matches wins, at the offset of the data before it. */
  lemma FindFirstMatch(d: Descriptor, size: int, prop: int, i: nat)
    requires d.Valid() && i < SpecdataCount
    requires forall j :: 0 <= j < i ==> Passes(d.headers, size, prop, j)
    requires Offset(d.headers, i) + LenOf(d.headers[i]) < size && TypeOf(d.headers[i]) as int == prop
    ensures Find(d, size, prop) == Lookup(Some(Offset(d.headers, i)), LenOf(d.headers[i]))
  {
    FindFromSkips(d.headers, size, prop, 0, i);
  }

  /** A header met before any match whose data would reach the end of the area stops the search with NULL. */
  lemma FindAbortsOutOfBounds(d: Descriptor, size: int, prop: int, i: nat)
    requires d.Valid() && i < SpecdataCount
    requires forall j :: 0 <= j < i ==> Passes(d.headers, size, prop, j)
    requires Offset(d.headers, i) + LenOf(d.headers[i]) >= size
    ensures Find(d, size, prop) == Lookup(None, LenOf(d.headers[i]))
  {
    FindFromSkips(d.headers, size, prop, 0, i);
  }

  /** When no header matches, the search gives NULL with the length of the last header. */
  lemma FindNotFound(d: Descriptor, size: int, prop: int)
    requires d.Valid()
    requires forall j :: 0 <= j < SpecdataCount ==> Passes(d.headers, size, prop, j)
    ensures Find(d, size, prop) == Lookup(None, LenOf(d.headers[SpecdataCount - 1]))
  {
    FindFromSkips(d.headers, size, prop, 0, SpecdataCount - 1);
    assert Passes(d.headers, size, prop, SpecdataCount - 1);
  }

  lemma {:induction false} FindFromSound(hs: seq<Header>, size: int, prop: int, i: nat)
    requires i < |hs|
    ensures var r := FindFrom(hs, size, prop, i);
      r.ptr.Some? ==>
        exists k :: (i <= k < |hs| && r.ptr.value == Offset(hs, k) && r.len == LenOf(hs[k]) &&
                     TypeOf(hs[k]) as int == prop && forall j :: i <= j < k ==> Passes(hs, size, prop, j))
    decreases |hs| - i
  {
    var n := LenOf(hs[i]);
    if Offset(hs, i) + n < size && TypeOf(hs[i]) as int != prop && i + 1 < |hs| {
      FindFromSound(hs, size, prop, i + 1);
      var r := FindFrom(hs, size, prop, i + 1);
      if r.ptr.Some? {
        var k :| i + 1 <= k < |hs| && r.ptr.value == Offset(hs, k) && r.len == LenOf(hs[k]) &&
          TypeOf(hs[k]) as int == prop && forall j :: i + 1 <= j < k ==> Passes(hs, size, prop, j);
        assert Passes(hs, size, prop, i);
        assert forall j :: i <= j < k ==> Passes(hs, size, prop, j);
      }
    }
  }

  /**
   * A property the search returns is the first header of its type, found at
   * the sum of the lengths before it, with its data inside the area.
   */
  lemma FindSound(d: Descriptor, size: int, prop: int)
    requires d.Valid()
    ensures var r := Find(d, size, prop);
      r.ptr.Some? ==>
        (r.ptr.value + r.len < size &&
         exists k :: (0 <= k < SpecdataCount && r.ptr.value == Offset(d.headers, k) &&
                      r.len == LenOf(d.headers[k]) && TypeOf(d.headers[k]) as int == prop &&
                      forall j :: 0 <= j < k ==> Passes(d.headers, size, prop, j)))
  {
    FindFromSound(d.headers, size, prop, 0);
  }

  /**
   * `unipi_eeprom_find_property`: walk the headers with a running data
   * index; `ptr` is the offset of the data found, None for NULL, and `len`
   * the `*len` out-parameter.
   */
  method FindProperty(d: Descriptor, size: int, prop: int) returns (ptr: Option<nat>, len: int)
    requires d.Valid()
    ensures Lookup(ptr, len) == Find(d, size, prop)
  {
    var dataindex: nat := 0;
    var i := 0;
    len := 0;
    while i < SpecdataCount
      invariant i <= SpecdataCount && dataindex == Offset(d.headers, i)
      invariant i < SpecdataCount ==> Find(d, size, prop) == FindFrom(d.headers, size, prop, i)
      invariant i == SpecdataCount ==> Find(d, size, prop) == Lookup(None, len)
    {
      var curType := TypeOf(d.headers[i]) as int;
      len := LenOf(d.headers[i]);
      if dataindex + len >= size {
        return None, len;
      }
      if curType == prop {
        return Some(dataindex), len;
      }
      dataindex := dataindex + len;
      i := i + 1;
    }
    ptr := None;
  }

  /** v fits in its n low bytes: every byte from the n-th upwards is zero. */
  predicate FitsIn(v: bv64, n: nat)
  {
    if n == 0 then v == 0 else n >= 8 || FitsIn(v >> 8, n - 1)
  }

  /** A value that fits in n bytes fits in n + 1. */
  lemma {:induction false} FitsInWider(v: bv64, n: nat)
    requires FitsIn(v, n)
    ensures FitsIn(v, n + 1)
  {
    if 0 < n < 8 {
      FitsInWider(v >> 8, n - 1);
    }
  }

  /** Whatever v is, v >> 8 fits in 7 bytes. */
  lemma ShiftedFitsInSeven(v: bv64)
    ensures FitsIn(v >> 8, 7)
  {
    var x1 := v >> 8 >> 8;
    var x2 := x1 >> 8;
    var x3 := x2 >> 8;
    var x4 := x3 >> 8;
    var x5 := x4 >> 8;
    var x6 := x5 >> 8;
    var x7 := x6 >> 8;
    assert x7 == 0;
    assert FitsIn(x6, 1);
    assert FitsIn(x5, 2);
    assert FitsIn(x4, 3);
    assert FitsIn(x3, 4);
    assert FitsIn(x2, 5);
    assert FitsIn(x1, 6);
  }

  /** Dropping the low byte of a value that fits in n bytes leaves one that fits in n - 1. */
  lemma ShiftFits(v: bv64, n: nat)
    requires 0 < n && FitsIn(v, n)
    ensures FitsIn(v >> 8, n - 1)
  {
    if n == 8 {
      ShiftedFitsInSeven(v);
    }
  }

  /** A value that fits in seven bytes has a zero top byte. */
  lemma SevenBytesTopZero(x: bv64)
    requires FitsIn(x, 7)
    ensures x >> 8 >> 8 >> 8 >> 8 >> 8 >> 8 >> 8 == 0
  {
    assert FitsIn(x >> 8, 6);
    assert FitsIn(x >> 8 >> 8, 5);
    assert FitsIn(x >> 8 >> 8 >> 8, 4);
    assert FitsIn(x >> 8 >> 8 >> 8 >> 8, 3);
    assert FitsIn(x >> 8 >> 8 >> 8 >> 8 >> 8, 2);
    assert FitsIn(x >> 8 >> 8 >> 8 >> 8 >> 8 >> 8, 1);
    assert FitsIn(x >> 8 >> 8 >> 8 >> 8 >> 8 >> 8 >> 8, 0);
  }

  /** A value whose top byte is zero survives a shift left and back. */
  lemma TopZeroShiftBack(x: bv64)
    requires x >> 8 >> 8 >> 8 >> 8 >> 8 >> 8 >> 8 == 0
    ensures x << 8 >> 8 == x
  {
  }

  /** A value that fits in fewer than 8 bytes survives a shift left and back. */
  lemma {:induction false} RestFits(rest: bv64, n: nat)
    requires n < 8 && FitsIn(rest, n)
    ensures rest << 8 >> 8 == rest
    decreases 8 - n
  {
    if n < 7 {
      FitsInWider(rest, n);
      RestFits(rest, n + 1);
    } else {
      SevenBytesTopZero(rest);
      TopZeroShiftBack(rest);
    }
  }

  /** Putting a byte below a value that fits in n - 1 bytes gives one that fits in n. */
  lemma JoinFits(b: bv8, rest: bv64, n: nat)
    requires 0 < n && FitsIn(rest, n - 1)
    ensures FitsIn((b as bv64) | (rest << 8), n)
  {
    if n < 8 {
      ByteJoin(b, rest);
      RestFits(rest, n - 1);
    }
  }

  /**
   * The `unsigned long` that `memcpy` of the little-endian bytes `bs` into a
   * zeroed one gives: byte i lands in bits 8i..8i+7, the bits above stay 0.
   */
  function LittleEndian(bs: seq<bv8>): (v: bv64)
    requires |bs| <= 8
  {
    if bs == [] then 0 else (bs[0] as bv64) | (LittleEndian(bs[1..]) << 8)
  }

  /** The n low bytes of v, least significant first. */
  function ToLittleEndian(v: bv64, n: nat): (bs: seq<bv8>)
    ensures |bs| == n
  {
    if n == 0 then [] else [(v & 0xff) as bv8] + ToLittleEndian(v >> 8, n - 1)
  }

  /** Splitting a value into its low byte and the rest, and joining them again. */
  lemma ByteSplit(v: bv64, low: bv8, high: bv64)
    requires low == (v & 0xff) as bv8 && high == v >> 8
    ensures (low as bv64) | (high << 8) == v
  {
  }

  /** Joining a byte and a rest, and splitting them again. */
  lemma ByteJoin(b: bv8, rest: bv64)
    ensures (((b as bv64) | (rest << 8)) & 0xff) as bv8 == b
    ensures ((b as bv64) | (rest << 8)) >> 8 == rest << 8 >> 8
  {
  }

  /** The value decoded from n bytes fits in n bytes. */
  lemma {:induction false} LittleEndianFits(bs: seq<bv8>)
    requires |bs| <= 8
    ensures FitsIn(LittleEndian(bs), |bs|)
  {
    if bs != [] {
      LittleEndianFits(bs[1..]);
      FitsStep(bs);
    }
  }

  /** One step of LittleEndianFits: the lowest byte adds one byte of width. */
  lemma FitsStep(bs: seq<bv8>)
    requires 0 < |bs| <= 8 && FitsIn(LittleEndian(bs[1..]), |bs| - 1)
    ensures FitsIn(LittleEndian(bs), |bs|)
  {
    var rest := LittleEndian(bs[1..]);
    assert LittleEndian(bs) == (bs[0] as bv64) | (rest << 8);
    JoinFits(bs[0], rest, |bs|);
  }

  /** Decoding a byte followed by more bytes puts the byte below the rest. */
  lemma LittleEndianCons(low: bv8, rest: seq<bv8>)
    requires |rest| < 8
    ensures LittleEndian([low] + rest) == (low as bv64) | (LittleEndian(rest) << 8)
  {
    assert ([low] + rest)[1..] == rest;
  }

  /** One step of the round trip: if the bytes above the lowest decode back, all of them do. */
  lemma OfBytesStep(v: bv64, n: nat)
    requires 0 < n <= 8
    requires LittleEndian(ToLittleEndian(v >> 8, n - 1)) == v >> 8
    ensures LittleEndian(ToLittleEndian(v, n)) == v
  {
    var low, high := (v & 0xff) as bv8, v >> 8;
    var rest := ToLittleEndian(high, n - 1);
    assert ToLittleEndian(v, n) == [low] + rest;
    LittleEndianCons(low, rest);
    ByteSplit(v, low, high);
  }

  /** Decoding the bytes of a value that fits in n bytes gives the value back. */
  lemma {:induction false} LittleEndianOfBytes(v: bv64, n: nat)
    requires n <= 8 && FitsIn(v, n)
    ensures LittleEndian(ToLittleEndian(v, n)) == v
  {
    if n > 0 {
      ShiftFits(v, n);
      LittleEndianOfBytes(v >> 8, n - 1);
      OfBytesStep(v, n);
    }
  }

  /** Encoding a decoded value gives the bytes back: every byte of the property reaches the value. */
  lemma {:induction false} BytesOfLittleEndian(bs: seq<bv8>)
    requires |bs| <= 8
    ensures ToLittleEndian(LittleEndian(bs), |bs|) == bs
  {
    if bs != [] {
      var rest := LittleEndian(bs[1..]);
      ByteJoin(bs[0], rest);
      LittleEndianFits(bs[1..]);
      RestFits(rest, |bs| - 1);
      BytesOfLittleEndian(bs[1..]);
    }
  }

  /**
   * `unipi_eeprom_get_uint_property`: -1 when the property is missing or
   * longer than an `unsigned long`, else its length, with the value of its
   * bytes read little-endian (None stands for the value left untouched).
   */
  method GetUintProperty(eprom: seq<bv8>, d: Descriptor, size: int, prop: int) returns (ret: int, value: Option<bv64>)
    requires d.Valid() && size <= |eprom|
    ensures var l := Find(d, size, prop);
      (ret == -1 <==> l.ptr.None? || l.len > ULongSize) && (ret == -1 <==> value.None?)
    ensures var l := Find(d, size, prop);
      ret != -1 ==>
        (ret == l.len && value == Some(LittleEndian(eprom[l.ptr.value..l.ptr.value + l.len])))
  {
    var ptr, len := FindProperty(d, size, prop);
    if ptr.None? {
      return -1, None;
    }
    if len > ULongSize {
      return -1, None;
    }
    value := Some(LittleEndian(eprom[ptr.value..ptr.value + len]));
    ret := len;
  }

  /** The lookup left `len` positive without a pointer: the C getters then copy from NULL. */
  predicate ReadsNull(l: Lookup)
  {
    l.ptr.None? && l.len > 0
  }

  /** `memcpy(dest, src, n)`. */
  method Copy(src: seq<bv8>, dest: array<bv8>, n: nat)
    requires n <= |src| && n <= dest.Length
    modifies dest
    ensures dest[..n] == src[..n] && dest[n..] == old(dest[n..])
  {
    forall i | 0 <= i < n {
      dest[i] := src[i];
    }
  }

  /**
   * `unipi_eeprom_get_bytes_property` as written: it tests `len`, not the
   * pointer, so a missing property whose last examined header has a
   * non-zero length is copied from NULL. `nullRead` flags that path; the
   * model then copies nothing.
   */
  method GetBytesPropertyAsWritten(eprom: seq<bv8>, d: Descriptor, size: int, prop: int, bytes: array<bv8>, maxlen: int)
    returns (ret: int, nullRead: bool)
    requires d.Valid() && size <= |eprom| && 0 <= maxlen <= bytes.Length
    modifies bytes
    ensures var l := Find(d, size, prop);
      ret == l.len && ret >= 0 && (nullRead <==> ReadsNull(l))
    ensures var l := Find(d, size, prop);
      var n := Min(l.len, maxlen);
      if l.ptr.Some? && l.len > 0 then
        bytes[..n] == eprom[l.ptr.value..l.ptr.value + n] && bytes[n..] == old(bytes[n..])
      else bytes[..] == old(bytes[..])
  {
    var ptr, len := FindProperty(d, size, prop);
    if len <= 0 {
      return len, false;
    }
    if ptr.None? {
      return len, true;
    }
    var n := Min(len, maxlen);
    Copy(eprom[ptr.value..ptr.value + n], bytes, n);
    ret, nullRead := len, false;
  }

  /**
   * `unipi_eeprom_get_bytes_property` as its comment describes it: -1 when
   * the property is not found, else its full length, with the first
   * min(len, maxlen) bytes of its data copied.
   */
  method GetBytesProperty(eprom: seq<bv8>, d: Descriptor, size: int, prop: int, bytes: array<bv8>, maxlen: int)
    returns (ret: int)
    requires d.Valid() && size <= |eprom| && 0 <= maxlen <= bytes.Length
    modifies bytes
    ensures var l := Find(d, size, prop);
      (ret < 0 <==> l.ptr.None?) && (l.ptr.None? ==> ret == -1) && (l.ptr.Some? ==> ret == l.len)
    ensures var l := Find(d, size, prop);
      var n := Min(l.len, maxlen);
      if l.ptr.Some? then
        bytes[..n] == eprom[l.ptr.value..l.ptr.value + n] && bytes[n..] == old(bytes[n..])
      else bytes[..] == old(bytes[..])
  {
    var ptr, len := FindProperty(d, size, prop);
    if ptr.None? {
      return -1;
    }
    var n := Min(len, maxlen);
    Copy(eprom[ptr.value..ptr.value + n], bytes, n);
    ret := len;
  }

  /** Where `slotstr` stops within the first `size` bytes: the first 0x00 or 0xFF, or `size`. */
  function StrLen(slot: seq<bv8>, size: nat): (k: nat)
    requires size <= |slot|
    ensures k <= size
    ensures forall j :: 0 <= j < k ==> slot[j] != 0 && slot[j] != 0xff
    ensures k < size ==> slot[k] == 0 || slot[k] == 0xff
  {
    if size == 0 then 0
    else
      var k := StrLen(slot, size - 1);
      if k < size - 1 then k
      else if slot[size - 1] == 0 || slot[size - 1] == 0xff then size - 1
      else size
  }

  /**
   * `slotstr`: copy the first `size` bytes of `slot` to `dest` until a 0x00
   * or 0xFF, which is replaced by NUL; nothing at or past `size` is written.
   */
  method SlotStr(slot: seq<bv8>, size: nat, dest: array<bv8>)
    requires size <= |slot| && size <= dest.Length
    modifies dest
    ensures var k := StrLen(slot, size);
      dest[..k] == slot[..k] && (k < size ==> dest[k] == 0) &&
      dest[Min(k + 1, size)..] == old(dest[Min(k + 1, size)..])
  {
    var i := 0;
    while i < size
      invariant i <= size
      invariant forall j :: 0 <= j < i ==> slot[j] != 0 && slot[j] != 0xff
      invariant dest[..i] == slot[..i] && dest[i..] == old(dest[i..])
    {
      var ch := slot[i];
      dest[i] := ch;
      if ch == 0xff || ch == 0 {
        dest[i] := 0;
        assert dest[i + 1..] == old(dest[i + 1..]);
        return;
      }
      i := i + 1;
    }
  }

  /**
   * The string a slot copy leaves in `str`, which held `before`, with the
   * terminator the getters write at index n: the bytes before the first
   * 0x00/0xFF of the first n, then NUL; the bytes between that NUL and index
   * n, and those past n, are as they were.
   */
  ghost predicate HoldsSlotString(str: seq<bv8>, before: seq<bv8>, slot: seq<bv8>, n: nat)
    requires n <= |slot| && n < |str| == |before|
  {
    var k := StrLen(slot, n);
    str[..k] == slot[..k] && str[k] == 0 && str[n] == 0 &&
    str[Min(k + 1, n)..n] == before[Min(k + 1, n)..n] && str[n + 1..] == before[n + 1..]
  }

  /** Writing the NUL at index n after `slotstr` leaves the slot string in place. */
  lemma SlotStringTerminated(copied: seq<bv8>, str: seq<bv8>, before: seq<bv8>, slot: seq<bv8>, n: nat)
    requires n <= |slot| && n < |str| == |before| == |copied|
    requires var k := StrLen(slot, n);
      copied[..k] == slot[..k] && (k < n ==> copied[k] == 0) &&
      copied[Min(k + 1, n)..] == before[Min(k + 1, n)..]
    requires str == copied[n := 0]
    ensures HoldsSlotString(str, before, slot, n)
  {
    var k := StrLen(slot, n);
    var m := Min(k + 1, n);
    assert str[..k] == copied[..k];
    SameAfter(copied, before, m, n);
    assert str[m..n] == copied[m..n];
    assert str[n + 1..] == copied[n + 1..];
  }

  /** Sequences that agree from m on agree on [m, n) and from n + 1 on. */
  lemma SameAfter<T>(a: seq<T>, b: seq<T>, m: nat, n: nat)
    requires m <= n < |a| == |b| && a[m..] == b[m..]
    ensures a[m..n] == b[m..n] && a[n + 1..] == b[n + 1..]
  {
    forall i | m <= i < |a|
      ensures a[i] == b[i]
    {
      assert a[i] == a[m..][i - m] && b[i] == b[m..][i - m];
    }
  }

  /**
   * `unipi_eeprom_get_str_property` as written: like the bytes getter it
   * tests `len`, not the pointer. `slotstr` then reads NULL unless its size
   * min(len, maxlen-1) is 0; `nullRead` flags that read, and the model then
   * leaves `str` alone. With maxlen 1 nothing is read and only the NUL at
   * index 0 is written.
   */
  method GetStrPropertyAsWritten(eprom: seq<bv8>, d: Descriptor, size: int, prop: int, str: array<bv8>, maxlen: int)
    returns (ret: int, nullRead: bool)
    requires d.Valid() && size <= |eprom| && 1 <= maxlen <= str.Length
    modifies str
    ensures var l := Find(d, size, prop);
      ret == l.len && ret >= 0 && (nullRead <==> ReadsNull(l) && Min(l.len, maxlen - 1) > 0)
    ensures var l := Find(d, size, prop);
      l.len == 0 || (ReadsNull(l) && maxlen == 1) ==> str[0] == 0 && str[1..] == old(str[1..])
    ensures var l := Find(d, size, prop);
      var n := Min(l.len, maxlen - 1);
      l.ptr.Some? && l.len > 0 ==>
        HoldsSlotString(str[..], old(str[..]), eprom[l.ptr.value..l.ptr.value + n], n)
    ensures nullRead ==> str[..] == old(str[..])
  {
    var ptr, len := FindProperty(d, size, prop);
    if len < 0 {
      return len, false;
    }
    if len == 0 {
      str[0] := 0;
      return 0, false;
    }
    var n := Min(len, maxlen - 1);
    if ptr.None? {
      if n > 0 {
        return len, true;
      }
      // slotstr(NULL, 0, str) reads nothing; only the terminator is written.
      str[0] := 0;
      return len, false;
    }
    ghost var before := str[..];
    SlotStr(eprom[ptr.value..ptr.value + n], n, str);
    ghost var copied := str[..];
    str[n] := 0;
    SlotStringTerminated(copied, str[..], before, eprom[ptr.value..ptr.value + n], n);
    ret, nullRead := len, false;
  }

  /**
   * `unipi_eeprom_get_str_property` as its comment describes it: -1 when the
   * property is not found; an empty property gives ""; otherwise the
   * property's bytes up to the first 0x00/0xFF, at most maxlen-1 of them,
   * NUL-terminated, and its full length.
   */
  method GetStrProperty(eprom: seq<bv8>, d: Descriptor, size: int, prop: int, str: array<bv8>, maxlen: int)
    returns (ret: int)
    requires d.Valid() && size <= |eprom| && 1 <= maxlen <= str.Length
    modifies str
    ensures var l := Find(d, size, prop);
      (ret < 0 <==> l.ptr.None?) && (l.ptr.None? ==> ret == -1 && str[..] == old(str[..]))
    ensures var l := Find(d, size, prop);
      l.ptr.Some? ==> ret == l.len
    ensures var l := Find(d, size, prop);
      var n := Min(l.len, maxlen - 1);
      l.ptr.Some? ==>
        HoldsSlotString(str[..], old(str[..]), eprom[l.ptr.value..l.ptr.value + n], n)
  {
    var ptr, len := FindProperty(d, size, prop);
    if ptr.None? {
      return -1;
    }
    if len == 0 {
      str[0] := 0;
      return 0;
    }
    var n := Min(len, maxlen - 1);
    ghost var before := str[..];
    SlotStr(eprom[ptr.value..ptr.value + n], n, str);
    ghost var copied := str[..];
    str[n] := 0;
    SlotStringTerminated(copied, str[..], before, eprom[ptr.value..ptr.value + n], n);
    ret := len;
  }

  /** `unipi_eeprom_get_serial`: the product serial, with the erased value read as 0. */
  function GetSerial(d: Descriptor): (s: bv32)
    ensures s == 0 <==> d.productSerial == 0 || d.productSerial == Erased
    ensures d.productSerial != Erased ==> s == d.productSerial
    ensures s != Erased
  {
    if d.productSerial == Erased then 0 else d.productSerial
  }

  /** `unipi_eeprom_get_sku`: the SKU, with the erased value read as 0. */
  function GetSku(d: Descriptor): (s: bv32)
    ensures s == 0 <==> d.sku == 0 || d.sku == Erased
    ensures d.sku != Erased ==> s == d.sku
    ensures s != Erased
  {
    if d.sku == Erased then 0 else d.sku
  }

  /**
   * `unipi_eeprom_get_model`: the model string up to its first 0x00/0xFF,
   * at most maxlen-1 bytes of it, NUL-terminated.
   */
  method GetModel(d: Descriptor, str: array<bv8>, maxlen: int)
    requires 1 <= maxlen <= str.Length
    modifies str
    ensures var n := Min(|d.modelStr|, maxlen - 1);
      HoldsSlotString(str[..], old(str[..]), d.modelStr, n)
  {
    var n := Min(|d.modelStr|, maxlen - 1);
    ghost var before := str[..];
    SlotStr(d.modelStr, n, str);
    ghost var copied := str[..];
    str[n] := 0;
    SlotStringTerminated(copied, str[..], before, d.modelStr, n);
  }

  /** A descriptor whose first header claims 40 bytes of data in a 32-byte area. */
  function OversizedFirst(): (d: Descriptor)
    ensures d.Valid()
  {
    Descriptor([Header(FieldTypeButton as bv8, 40)] + seq(SpecdataCount - 1, _ => Header(FieldTypeButton as bv8, 1)),
               0, 0, [])
  }

  /**
   * Asking the descriptor above for its MAC address stops at the oversized
   * first header with NULL and a length of 40, so both C getters copy from NULL.
   */
  lemma OutOfBoundsEntryReadsNull()
    ensures Find(OversizedFirst(), 32, FieldTypeMac) == Lookup(None, 40)
    ensures ReadsNull(Find(OversizedFirst(), 32, FieldTypeMac))
  {
    var hs := OversizedFirst().headers;
    assert LenOf(hs[0]) == 40;
    FindAbortsOutOfBounds(OversizedFirst(), 32, FieldTypeMac, 0);
  }

  /** A descriptor of twelve one-byte BUTTON properties. */
  function ButtonsOnly(): (d: Descriptor)
    ensures d.Valid()
  {
    Descriptor(seq(SpecdataCount, _ => Header(FieldTypeButton as bv8, 1)), 0, 0, [])
  }

  lemma {:induction false} ButtonsOnlyOffsets(i: nat)
    requires i <= SpecdataCount
    ensures Offset(ButtonsOnly().headers, i) == i
  {
    if i > 0 {
      ButtonsOnlyOffsets(i - 1);
      assert LenOf(ButtonsOnly().headers[i - 1]) == 1;
    }
  }

  /**
   * Asking that descriptor for its MAC address finds nothing, yet leaves
   * the length of the last header, 1, so both C getters copy from NULL.
   */
  lemma MissingPropertyReadsNull()
    ensures Find(ButtonsOnly(), 32, FieldTypeMac) == Lookup(None, 1)
    ensures ReadsNull(Find(ButtonsOnly(), 32, FieldTypeMac))
  {
    var d := ButtonsOnly();
    forall j | 0 <= j < SpecdataCount
      ensures Passes(d.headers, 32, FieldTypeMac, j)
    {
      ButtonsOnlyOffsets(j);
      assert LenOf(d.headers[j]) == 1 && TypeOf(d.headers[j]) as int == FieldTypeButton;
    }
    FindNotFound(d, 32, FieldTypeMac);
    assert LenOf(d.headers[SpecdataCount - 1]) == 1;
  }
}
