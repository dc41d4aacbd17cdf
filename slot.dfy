/**
 * The slot store: a fixed array of named signal records, each persisted in
 * EEPROM as its raw record bytes followed by a CRC-8 of those bytes.
 *
 * The record layout is the packed C structure on an 8-bit AVR target
 * (`unsigned int` is 16 bits, `unsigned long` 32 bits, little-endian).
 */
module Slot {
  import opened Optional

  type byte = bv8
  type uint8 = x: int | 0 <= x < 0x100

  const SlotsCount: nat := 20
  const NameLengthMax: nat := 20
  /** The name buffer holds the name and its terminating NUL. */
  const NameBufferSize: nat := NameLengthMax + 1
  /** protocol (2 bytes), value (4 bytes), bitLength (2 bytes) */
  const SignalSize: nat := 8
  const RecordSize: nat := NameBufferSize + SignalSize
  /** A record plus its CRC byte. */
  const SlotEepromSize: nat := RecordSize + 1
  /** The part of EEPROM the store owns. */
  const RegionSize: nat := SlotsCount * SlotEepromSize
  /** EEPROM of the ATmega328P. */
  const EepromLength: nat := 1024
  const EraseByte: byte := 0xFF
  const Nul: byte := 0

  datatype Signal = Signal(protocol: bv16, value: bv32, bitLength: bv16)

  /** The empty slot: all three fields zero. */
  const SignalInvalid: Signal := Signal(0, 0, 0)

  type NameBuffer = s: seq<byte> | |s| == NameBufferSize witness seq(NameBufferSize, _ => Nul)

  datatype SlotItem = SlotItem(name: NameBuffer, signal: Signal)

  /** The zero-initialised record every slot holds before the first load. */
  const ZeroItem: SlotItem := SlotItem(seq(NameBufferSize, _ => Nul), SignalInvalid)

  // ---------------------------------------------------------------------------
  // Raw record bytes
  // ---------------------------------------------------------------------------

  function Le16(x: bv16): (bs: seq<byte>)
    ensures |bs| == 2
  {
    [(x & 0xFF) as bv8, (x >> 8) as bv8]
  }

  function FromLe16(lo: byte, hi: byte): bv16
  {
    (lo as bv16) | ((hi as bv16) << 8)
  }

  function Le32(x: bv32): (bs: seq<byte>)
    ensures |bs| == 4
  {
    Le16((x & 0xFFFF) as bv16) + Le16((x >> 16) as bv16)
  }

  function FromLe32(bs: seq<byte>): bv32
    requires |bs| == 4
  {
    (FromLe16(bs[0], bs[1]) as bv32) | ((FromLe16(bs[2], bs[3]) as bv32) << 16)
  }

  function EncodeSignal(s: Signal): (bs: seq<byte>)
    ensures |bs| == SignalSize
  {
    Le16(s.protocol) + Le32(s.value) + Le16(s.bitLength)
  }

  function DecodeSignal(bs: seq<byte>): Signal
    requires |bs| == SignalSize
  {
    Signal(FromLe16(bs[0], bs[1]), FromLe32(bs[2..6]), FromLe16(bs[6], bs[7]))
  }

  /** The bytes of a record as they lie in memory: the whole name buffer, then the signal. */
  function Encode(item: SlotItem): (bs: seq<byte>)
    ensures |bs| == RecordSize
    ensures bs[..NameBufferSize] == item.name
  {
    item.name + EncodeSignal(item.signal)
  }

  /** Reading any `RecordSize` bytes into a record: every byte pattern is some record. */
  function Decode(bs: seq<byte>): SlotItem
    requires |bs| == RecordSize
  {
    SlotItem(bs[..NameBufferSize], DecodeSignal(bs[NameBufferSize..]))
  }

  lemma Le16Bytes(lo: byte, hi: byte)
    ensures Le16(FromLe16(lo, hi)) == [lo, hi]
  {
  }

  lemma Le32Bytes(bs: seq<byte>)
    requires |bs| == 4
    ensures Le32(FromLe32(bs)) == bs
  {
    var lo, hi := FromLe16(bs[0], bs[1]), FromLe16(bs[2], bs[3]);
    Halves(lo, hi);
    Le16Bytes(bs[0], bs[1]);
    Le16Bytes(bs[2], bs[3]);
  }

  /** The two 16-bit halves of a 32-bit word come back out of it. */
  lemma Halves(lo: bv16, hi: bv16)
    ensures var x := (lo as bv32) | ((hi as bv32) << 16);
      (x & 0xFFFF) as bv16 == lo && (x >> 16) as bv16 == hi
  {
  }

  lemma Le32Value(x: bv32)
    ensures FromLe32(Le32(x)) == x
  {
  }

  /** Writing a record and reading it back gives the same record. */
  lemma DecodeEncode(item: SlotItem)
    ensures Decode(Encode(item)) == item
  {
    var bs := Encode(item);
    var sig := bs[NameBufferSize..];
    assert sig == EncodeSignal(item.signal);
    assert sig[2..6] == Le32(item.signal.value);
    Le32Value(item.signal.value);
  }

  /** Reading bytes into a record and writing it out gives the same bytes. */
  lemma EncodeDecode(bs: seq<byte>)
    requires |bs| == RecordSize
    ensures Encode(Decode(bs)) == bs
  {
    var sig := bs[NameBufferSize..];
    Le16Bytes(sig[0], sig[1]);
    Le32Bytes(sig[2..6]);
    Le16Bytes(sig[6], sig[7]);
    assert EncodeSignal(DecodeSignal(sig)) == sig;
    assert bs == bs[..NameBufferSize] + sig;
  }

  // ---------------------------------------------------------------------------
  // CRC-8 (polynomial 0x07, initial value 0, no reflection, no final xor)
  // ---------------------------------------------------------------------------

  function CrcShift(c: bv8): bv8
  {
    // shift left; when the top bit falls out, fold the polynomial back in
    (c << 1) ^ ((c >> 7) * 0x07)
  }

  function CrcByte(crc: bv8, b: byte): bv8
  {
    var c := crc ^ b;
    CrcShift(CrcShift(CrcShift(CrcShift(CrcShift(CrcShift(CrcShift(CrcShift(c))))))))
  }

  function CrcFrom(crc: bv8, data: seq<byte>): bv8
    decreases |data|
  {
    if data == [] then crc else CrcFrom(CrcByte(crc, data[0]), data[1..])
  }

  function Crc8(data: seq<byte>): byte
  {
    CrcFrom(0, data)
  }

  /** One shift of the register never maps two register values to one. */
  lemma CrcShiftInjective(u: bv8, v: bv8)
    requires u != v
    ensures CrcShift(u) != CrcShift(v)
  {
  }

  /** Two steps that feed different values into the register leave different registers. */
  lemma CrcByteInjective(c1: bv8, b1: byte, c2: bv8, b2: byte)
    requires c1 ^ b1 != c2 ^ b2
    ensures CrcByte(c1, b1) != CrcByte(c2, b2)
  {
    var u, v := c1 ^ b1, c2 ^ b2;
    CrcShiftInjective(u, v);
    CrcShiftInjective(CrcShift(u), CrcShift(v));
    var u2, v2 := CrcShift(CrcShift(u)), CrcShift(CrcShift(v));
    CrcShiftInjective(u2, v2);
    CrcShiftInjective(CrcShift(u2), CrcShift(v2));
    var u4, v4 := CrcShift(CrcShift(u2)), CrcShift(CrcShift(v2));
    CrcShiftInjective(u4, v4);
    CrcShiftInjective(CrcShift(u4), CrcShift(v4));
    var u6, v6 := CrcShift(CrcShift(u4)), CrcShift(CrcShift(v4));
    CrcShiftInjective(u6, v6);
    CrcShiftInjective(CrcShift(u6), CrcShift(v6));
  }

  /** Different registers stay different over the same data. */
  lemma {:induction false} CrcFromInjective(c1: bv8, c2: bv8, data: seq<byte>)
    requires c1 != c2
    ensures CrcFrom(c1, data) != CrcFrom(c2, data)
    decreases |data|
  {
    if data != [] {
      CrcByteInjective(c1, data[0], c2, data[0]);
      CrcFromInjective(CrcByte(c1, data[0]), CrcByte(c2, data[0]), data[1..]);
    }
  }

  /** The CRC of `a + b` continues from the CRC of `a`. */
  lemma {:induction false} CrcFromAppend(c: bv8, a: seq<byte>, b: seq<byte>)
    ensures CrcFrom(c, a + b) == CrcFrom(CrcFrom(c, a), b)
    decreases |a|
  {
    if a == [] {
      assert a + b == b;
    } else {
      assert (a + b)[0] == a[0] && (a + b)[1..] == a[1..] + b;
      CrcFromAppend(CrcByte(c, a[0]), a[1..], b);
    }
  }

  /** Changing any single byte of the data changes its CRC. */
  lemma CrcDetectsByteChange(d1: seq<byte>, d2: seq<byte>, k: nat)
    requires |d1| == |d2| && k < |d1| && d1[k] != d2[k]
    requires forall j :: 0 <= j < |d1| && j != k ==> d1[j] == d2[j]
    ensures Crc8(d1) != Crc8(d2)
  {
    var c := CrcFrom(0, d1[..k]);
    assert d1[..k] == d2[..k];
    assert d1[k + 1..] == d2[k + 1..];
    assert d1 == d1[..k] + ([d1[k]] + d1[k + 1..]);
    assert d2 == d2[..k] + ([d2[k]] + d2[k + 1..]);
    CrcFromAppend(0, d1[..k], [d1[k]] + d1[k + 1..]);
    CrcFromAppend(0, d2[..k], [d2[k]] + d2[k + 1..]);
    CrcByteInjective(c, d1[k], c, d2[k]);
    assert ([d1[k]] + d1[k + 1..])[1..] == d1[k + 1..];
    assert ([d2[k]] + d2[k + 1..])[1..] == d2[k + 1..];
    CrcFromInjective(CrcByte(c, d1[k]), CrcByte(c, d2[k]), d1[k + 1..]);
  }

  // ---------------------------------------------------------------------------
  // Names: C strings in a fixed buffer
  // ---------------------------------------------------------------------------

  predicate NoNul(s: seq<byte>)
  {
    forall k :: 0 <= k < |s| ==> s[k] != Nul
  }

  /** The C string a buffer holds: its bytes up to the first NUL (the whole buffer if there is none). */
  function CStringOf(buf: seq<byte>): (s: seq<byte>)
    ensures |s| <= |buf| && s == buf[..|s|] && NoNul(s)
    ensures |s| < |buf| ==> buf[|s|] == Nul
    decreases |buf|
  {
    if buf == [] then []
    else if buf[0] == Nul then []
    else [buf[0]] + CStringOf(buf[1..])
  }

  /** The first `NameLengthMax` characters of a name. */
  function Truncated(s: seq<byte>): (t: seq<byte>)
    ensures |t| <= NameLengthMax && |t| <= |s| && t == s[..|t|]
    ensures |t| == if |s| <= NameLengthMax then |s| else NameLengthMax
    ensures |s| <= NameLengthMax ==> t == s
  {
    if |s| <= NameLengthMax then s else s[..NameLengthMax]
  }

  /**
   * `snprintf(buf, NameBufferSize, "%s", s)`: the truncated name, its
   * terminator, and the old bytes after the terminator left as they were.
   */
  function WriteName(buf: NameBuffer, s: seq<byte>): (r: NameBuffer)
    requires NoNul(s)
    ensures CStringOf(r) == Truncated(s)
    ensures r[|Truncated(s)| + 1..] == buf[|Truncated(s)| + 1..]
  {
    var t := Truncated(s);
    var r := t + [Nul] + buf[|t| + 1..];
    assert r[..|t|] == t && r[|t|] == Nul;
    r
  }

  /** The decimal digits of `n`, most significant first, with no leading zero. */
  function Decimal(n: nat): (ds: seq<nat>)
    ensures 1 <= |ds| && IsDigits(ds)
    ensures |ds| > 1 ==> ds[0] != 0
    ensures DigitsValue(ds) == n
    decreases n
  {
    if n < 10 then [n] else Decimal(n / 10) + [n % 10]
  }

  predicate IsDigits(ds: seq<nat>)
  {
    forall k :: 0 <= k < |ds| ==> ds[k] < 10
  }

  /** The number a string of decimal digits denotes. */
  function DigitsValue(ds: seq<nat>): nat
    decreases |ds|
  {
    if ds == [] then 0 else 10 * DigitsValue(ds[..|ds| - 1]) + ds[|ds| - 1]
  }

  /** `"%02d"`: the digits of `n`, padded with a leading zero to at least two. */
  function ZeroPad2(n: nat): (ds: seq<nat>)
    ensures 2 <= |ds| && IsDigits(ds)
    ensures n < 100 ==> ds == [n / 10, n % 10]
    ensures DigitsValue(ds) == n
  {
    if n < 10 then
      assert DigitsValue([0, n]) == n by {
        assert [0, n][..1] == [0] && [0][..0] == [];
      }
      [0, n]
    else
      assert n < 100 ==> Decimal(n) == [n / 10, n % 10] by {
        if n < 100 { assert Decimal(n / 10) == [n / 10]; }
      }
      Decimal(n)
  }

  /** The ASCII codes of `0` to `9`. */
  const DigitChars: seq<byte> := [0x30, 0x31, 0x32, 0x33, 0x34, 0x35, 0x36, 0x37, 0x38, 0x39]

  /** Digits as ASCII characters. */
  function Ascii(ds: seq<nat>): (s: seq<byte>)
    requires IsDigits(ds)
    ensures |s| == |ds| && NoNul(s)
  {
    seq(|ds|, k requires 0 <= k < |ds| => DigitChars[ds[k]])
  }

  /** `"Slot "` in ASCII. */
  const SlotPrefix: seq<byte> := [0x53, 0x6C, 0x6F, 0x74, 0x20]

  /** `"Slot %02d"` of the 1-based slot number. */
  function DefaultName(i: nat): (s: seq<byte>)
    ensures NoNul(s)
  {
    SlotPrefix + Ascii(ZeroPad2(i + 1))
  }

  /** Slot numbers up to 99 give `"Slot "` and exactly two digits. */
  lemma DefaultNameDigits(i: nat)
    requires i < 99
    ensures DefaultName(i) == SlotPrefix + [DigitChars[(i + 1) / 10], DigitChars[(i + 1) % 10]]
  {
  }

  /** What `reset` makes of a slot record. */
  function ResetItem(item: SlotItem, i: nat): (r: SlotItem)
    requires i < SlotsCount
    ensures r.signal == SignalInvalid
  {
    SlotItem(WriteName(item.name, DefaultName(i)), SignalInvalid)
  }

  /** A reset slot reads back its default name. */
  lemma ResetItemName(item: SlotItem, i: nat)
    requires i < SlotsCount
    ensures CStringOf(ResetItem(item, i).name) == DefaultName(i)
  {
  }

  // ---------------------------------------------------------------------------
  // EEPROM images
  // ---------------------------------------------------------------------------

  /** `data` written at `addr`; every other byte kept. */
  function Put(mem: seq<byte>, addr: nat, data: seq<byte>): (r: seq<byte>)
    requires addr + |data| <= |mem|
    ensures |r| == |mem|
  {
    mem[..addr] + data + mem[addr + |data|..]
  }

  lemma PutAt(mem: seq<byte>, addr: nat, data: seq<byte>, k: nat)
    requires addr + |data| <= |mem| && k < |mem|
    ensures Put(mem, addr, data)[k] == if addr <= k < addr + |data| then data[k - addr] else mem[k]
  {
  }

  /** Where slot `i`'s record starts in EEPROM. */
  function SlotAddress(i: nat): nat
  {
    i * 30
  }

  /** Slot `i` starts `i` record-and-CRC frames into EEPROM. */
  lemma SlotAddressFrames(i: nat)
    ensures SlotAddress(i) == i * SlotEepromSize
  { }

  lemma SlotInRegion(i: nat)
    requires i < SlotsCount
    ensures SlotAddress(i) + SlotEepromSize <= RegionSize <= EepromLength
  {
  }

  function StoredRecord(mem: seq<byte>, i: nat): (bs: seq<byte>)
    requires |mem| == EepromLength && i < SlotsCount
    ensures |bs| == RecordSize
  {
    mem[SlotAddress(i)..SlotAddress(i) + RecordSize]
  }

  function StoredCrc(mem: seq<byte>, i: nat): byte
    requires |mem| == EepromLength && i < SlotsCount
  {
    mem[SlotAddress(i) + RecordSize]
  }

  /** The stored CRC byte of slot `i` matches the CRC of its stored record. */
  predicate Intact(mem: seq<byte>, i: nat)
    requires |mem| == EepromLength && i < SlotsCount
  {
    Crc8(StoredRecord(mem, i)) == StoredCrc(mem, i)
  }

  /** EEPROM after `save`: the record bytes of `item` and their CRC at slot `i`'s address. */
  function Saved(mem: seq<byte>, i: nat, item: SlotItem): (r: seq<byte>)
    requires |mem| == EepromLength && i < SlotsCount
    ensures |r| == EepromLength
  {
    var bs := Encode(item);
    Put(mem, SlotAddress(i), bs + [Crc8(bs)])
  }

  /** The record `loadAll` leaves in slot `i`: the stored one if intact, else the reset one. */
  function Loaded(mem: seq<byte>, i: nat): SlotItem
    requires |mem| == EepromLength && i < SlotsCount
  {
    var item := Decode(StoredRecord(mem, i));
    if Intact(mem, i) then item else ResetItem(item, i)
  }

  /** A damaged slot loads as its default name with the invalid signal. */
  lemma LoadedDamaged(mem: seq<byte>, i: nat)
    requires |mem| == EepromLength && i < SlotsCount && !Intact(mem, i)
    ensures CStringOf(Loaded(mem, i).name) == DefaultName(i)
    ensures Loaded(mem, i).signal == SignalInvalid
  {
    ResetItemName(Decode(StoredRecord(mem, i)), i);
  }

  /**
   * EEPROM after slots `0 .. n-1` have been checked in turn, each damaged
   * one rewritten with the record `fix[i]`.
   */
  function Rewritten(mem: seq<byte>, fix: seq<SlotItem>, n: nat): (r: seq<byte>)
    requires |mem| == EepromLength && |fix| == SlotsCount && n <= SlotsCount
    ensures |r| == EepromLength
    decreases n
  {
    if n == 0 then mem
    else
      var r := Rewritten(mem, fix, n - 1);
      if Intact(mem, n - 1) then r else Saved(r, n - 1, fix[n - 1])
  }

  /** The records `loadAll` puts in memory, slot by slot. */
  function LoadedAll(mem: seq<byte>): (items: seq<SlotItem>)
    requires |mem| == EepromLength
    ensures |items| == SlotsCount
  {
    seq(SlotsCount, i requires 0 <= i < SlotsCount => Loaded(mem, i))
  }

  /** EEPROM after `loadAll` has handled slots `0 .. n-1`: each damaged one is written back reset. */
  function Repaired(mem: seq<byte>, n: nat): (r: seq<byte>)
    requires |mem| == EepromLength && n <= SlotsCount
    ensures |r| == EepromLength
  {
    Rewritten(mem, LoadedAll(mem), n)
  }

  /** `loadAll`'s handling of slot `i` writes to EEPROM only when the slot is damaged. */
  lemma RepairedStep(mem: seq<byte>, i: nat)
    requires |mem| == EepromLength && i < SlotsCount
    ensures Repaired(mem, i + 1) ==
              if Intact(mem, i) then Repaired(mem, i) else Saved(Repaired(mem, i), i, Loaded(mem, i))
  {
    assert LoadedAll(mem)[i] == Loaded(mem, i);
  }

  /** Slot `i` is intact and holds a signal. */
  predicate Filled(mem: seq<byte>, i: nat)
    requires |mem| == EepromLength && i < SlotsCount
  {
    Intact(mem, i) && Decode(StoredRecord(mem, i)).signal != SignalInvalid
  }

  /** A slot counts as valid exactly when it is intact and loads with a signal. */
  lemma FilledIsLoadedSignal(mem: seq<byte>, i: nat)
    requires |mem| == EepromLength && i < SlotsCount
    ensures Filled(mem, i) <==> Intact(mem, i) && Loaded(mem, i).signal != SignalInvalid
  {
  }

  /** Which slots are intact and hold a signal. */
  function FilledAll(mem: seq<byte>): (flags: seq<bool>)
    requires |mem| == EepromLength
    ensures |flags| == SlotsCount
  {
    seq(SlotsCount, i requires 0 <= i < SlotsCount => Filled(mem, i))
  }

  /** How many of the first `n` flags are set. */
  function CountSet(flags: seq<bool>, n: nat): (c: nat)
    requires n <= |flags|
    ensures c <= n
    decreases n
  {
    if n == 0 then 0 else CountSet(flags, n - 1) + if flags[n - 1] then 1 else 0
  }

  /** The count is zero exactly when none of the first `n` flags is set. */
  lemma {:induction false} CountSetZero(flags: seq<bool>, n: nat)
    requires n <= |flags|
    ensures CountSet(flags, n) == 0 <==> forall i :: 0 <= i < n ==> !flags[i]
    decreases n
  {
    if n > 0 {
      CountSetZero(flags, n - 1);
    }
  }

  /** Counts that agree flag by flag agree. */
  lemma {:induction false} CountSetSame(f: seq<bool>, g: seq<bool>, n: nat)
    requires n <= |f| && n <= |g|
    requires forall i :: 0 <= i < n ==> f[i] == g[i]
    ensures CountSet(f, n) == CountSet(g, n)
    decreases n
  {
    if n > 0 {
      CountSetSame(f, g, n - 1);
    }
  }

  /** How many of the slots `0 .. n-1` are intact and hold a signal. */
  function ValidCount(mem: seq<byte>, n: nat): (c: nat)
    requires |mem| == EepromLength && n <= SlotsCount
    ensures c <= n
  {
    CountSet(FilledAll(mem), n)
  }

  /** The count is zero exactly when none of the slots counts as valid. */
  lemma ValidCountZero(mem: seq<byte>, n: nat)
    requires |mem| == EepromLength && n <= SlotsCount
    ensures ValidCount(mem, n) == 0 <==> forall i :: 0 <= i < n ==> !Filled(mem, i)
  {
    var flags := FilledAll(mem);
    CountSetZero(flags, n);
    assert forall i :: 0 <= i < n ==> flags[i] == Filled(mem, i);
  }

  /** EEPROM after `eraseAll`. */
  function Erased(mem: seq<byte>): (r: seq<byte>)
    requires |mem| == EepromLength
    ensures |r| == EepromLength
  {
    seq(|mem|, k requires 0 <= k < |mem| => if k < RegionSize then EraseByte else mem[k])
  }

  // ---------------------------------------------------------------------------
  // Properties of the EEPROM images
  // ---------------------------------------------------------------------------

  /** `save` touches exactly the bytes of its own slot. */
  lemma SavedFrame(mem: seq<byte>, i: nat, item: SlotItem)
    requires |mem| == EepromLength && i < SlotsCount
    ensures forall k :: 0 <= k < |mem| && !(SlotAddress(i) <= k < SlotAddress(i) + SlotEepromSize) ==>
              Saved(mem, i, item)[k] == mem[k]
    ensures StoredRecord(Saved(mem, i, item), i) == Encode(item)
    ensures StoredCrc(Saved(mem, i, item), i) == Crc8(Encode(item))
  {
    var bs := Encode(item);
    var r := Saved(mem, i, item);
    forall k | 0 <= k < |mem|
      ensures r[k] == if SlotAddress(i) <= k < SlotAddress(i) + SlotEepromSize then (bs + [Crc8(bs)])[k - SlotAddress(i)] else mem[k]
    {
      PutAt(mem, SlotAddress(i), bs + [Crc8(bs)], k);
    }
    assert StoredRecord(r, i) == bs by {
      forall k | 0 <= k < RecordSize ensures StoredRecord(r, i)[k] == bs[k] {
        assert StoredRecord(r, i)[k] == r[SlotAddress(i) + k] == (bs + [Crc8(bs)])[k];
      }
    }
  }

  /** Writing slot `i` leaves what every other slot reads back unchanged. */
  lemma SavedOthers(mem: seq<byte>, i: nat, item: SlotItem, j: nat)
    requires |mem| == EepromLength && i < SlotsCount && j < SlotsCount && i != j
    ensures StoredRecord(Saved(mem, i, item), j) == StoredRecord(mem, j)
    ensures StoredCrc(Saved(mem, i, item), j) == StoredCrc(mem, j)
  {
    SavedFrame(mem, i, item);
    var r := Saved(mem, i, item);
    forall k | 0 <= k < RecordSize ensures StoredRecord(r, j)[k] == StoredRecord(mem, j)[k] {
      assert SlotAddress(j) + k < SlotAddress(i) || SlotAddress(i) + SlotEepromSize <= SlotAddress(j) + k by {
        if j < i { assert SlotAddress(j) + SlotEepromSize <= SlotAddress(i); }
        else { assert SlotAddress(i) + SlotEepromSize <= SlotAddress(j); }
      }
    }
    assert SlotAddress(j) + RecordSize < SlotAddress(i) || SlotAddress(i) + SlotEepromSize <= SlotAddress(j) + RecordSize by {
      if j < i { assert SlotAddress(j) + SlotEepromSize <= SlotAddress(i); }
      else { assert SlotAddress(i) + SlotEepromSize <= SlotAddress(j); }
    }
  }

  /**
   * `save(i)` followed by `loadAll` gives back exactly the saved record in
   * slot `i`, and every other slot loads as it would have before.
   */
  lemma SaveThenLoad(mem: seq<byte>, i: nat, item: SlotItem)
    requires |mem| == EepromLength && i < SlotsCount
    ensures Intact(Saved(mem, i, item), i)
    ensures Loaded(Saved(mem, i, item), i) == item
    ensures forall j :: 0 <= j < SlotsCount && j != i ==> Loaded(Saved(mem, i, item), j) == Loaded(mem, j)
  {
    SavedFrame(mem, i, item);
    DecodeEncode(item);
    forall j | 0 <= j < SlotsCount && j != i
      ensures Loaded(Saved(mem, i, item), j) == Loaded(mem, j)
    {
      SavedOthers(mem, i, item, j);
    }
  }

  /** Checking slot `n-1` leaves every other slot's bytes as they were. */
  lemma RewrittenStepOthers(mem: seq<byte>, fix: seq<SlotItem>, n: nat, i: nat)
    requires |mem| == EepromLength && |fix| == SlotsCount && 0 < n <= SlotsCount && i < SlotsCount && i != n - 1
    ensures StoredRecord(Rewritten(mem, fix, n), i) == StoredRecord(Rewritten(mem, fix, n - 1), i)
    ensures StoredCrc(Rewritten(mem, fix, n), i) == StoredCrc(Rewritten(mem, fix, n - 1), i)
  {
    if !Intact(mem, n - 1) {
      SavedOthers(Rewritten(mem, fix, n - 1), n - 1, fix[n - 1], i);
    }
  }

  /** Checking slots `0 .. n-1` has not touched slot `i >= n`. */
  lemma {:induction false} RewrittenKeepsRest(mem: seq<byte>, fix: seq<SlotItem>, n: nat, i: nat)
    requires |mem| == EepromLength && |fix| == SlotsCount && n <= i < SlotsCount
    ensures StoredRecord(Rewritten(mem, fix, n), i) == StoredRecord(mem, i)
    ensures StoredCrc(Rewritten(mem, fix, n), i) == StoredCrc(mem, i)
    decreases n
  {
    if n > 0 {
      RewrittenKeepsRest(mem, fix, n - 1, i);
      RewrittenStepOthers(mem, fix, n, i);
    }
  }

  /** Bytes beyond the slot region are never written by `loadAll`. */
  lemma {:induction false} RewrittenKeepsOutside(mem: seq<byte>, fix: seq<SlotItem>, n: nat, k: nat)
    requires |mem| == EepromLength && |fix| == SlotsCount && n <= SlotsCount && RegionSize <= k < EepromLength
    ensures Rewritten(mem, fix, n)[k] == mem[k]
    decreases n
  {
    if n > 0 {
      RewrittenKeepsOutside(mem, fix, n - 1, k);
      if !Intact(mem, n - 1) {
        SlotInRegion(n - 1);
        var bs := Encode(fix[n - 1]);
        PutAt(Rewritten(mem, fix, n - 1), SlotAddress(n - 1), bs + [Crc8(bs)], k);
      }
    }
  }

  /** A saved slot is intact and holds the saved record. */
  lemma SavedReadsBack(mem: seq<byte>, i: nat, item: SlotItem)
    requires |mem| == EepromLength && i < SlotsCount
    ensures Intact(Saved(mem, i, item), i)
    ensures Decode(StoredRecord(Saved(mem, i, item), i)) == item
  {
    SavedFrame(mem, i, item);
    DecodeEncode(item);
  }

  /** Checking slot `i` leaves it intact, holding its old record or else `fix[i]`. */
  lemma RewrittenLast(mem: seq<byte>, fix: seq<SlotItem>, i: nat)
    requires |mem| == EepromLength && |fix| == SlotsCount && i < SlotsCount
    ensures Intact(Rewritten(mem, fix, i + 1), i)
    ensures Decode(StoredRecord(Rewritten(mem, fix, i + 1), i)) ==
              if Intact(mem, i) then Decode(StoredRecord(mem, i)) else fix[i]
  {
    RewrittenKeepsRest(mem, fix, i, i);
    if !Intact(mem, i) {
      SavedReadsBack(Rewritten(mem, fix, i), i, fix[i]);
    }
  }

  /**
   * Once slot `i` has been checked it stays intact, holding either the record
   * that was there (if it was intact) or `fix[i]`.
   */
  lemma {:induction false} RewrittenIsIntact(mem: seq<byte>, fix: seq<SlotItem>, n: nat, i: nat)
    requires |mem| == EepromLength && |fix| == SlotsCount && i < n <= SlotsCount
    ensures Intact(Rewritten(mem, fix, n), i)
    ensures Decode(StoredRecord(Rewritten(mem, fix, n), i)) ==
              if Intact(mem, i) then Decode(StoredRecord(mem, i)) else fix[i]
    decreases n
  {
    if i == n - 1 {
      RewrittenLast(mem, fix, i);
    } else {
      RewrittenIsIntact(mem, fix, n - 1, i);
      RewrittenStepOthers(mem, fix, n, i);
    }
  }

  /** Checking slots that are all intact writes nothing. */
  lemma {:induction false} RewrittenIntactIsIdentity(mem: seq<byte>, fix: seq<SlotItem>, n: nat)
    requires |mem| == EepromLength && |fix| == SlotsCount && n <= SlotsCount
    requires forall i :: 0 <= i < n ==> Intact(mem, i)
    ensures Rewritten(mem, fix, n) == mem
    decreases n
  {
    if n > 0 {
      RewrittenIntactIsIdentity(mem, fix, n - 1);
    }
  }

  /**
   * After `loadAll` has handled slots `0 .. n-1`, each of them is intact in
   * EEPROM and reads back as the record the load put in memory.
   */
  lemma RepairedIsIntact(mem: seq<byte>, n: nat, i: nat)
    requires |mem| == EepromLength && i < n <= SlotsCount
    ensures Intact(Repaired(mem, n), i)
    ensures Decode(StoredRecord(Repaired(mem, n), i)) == Loaded(mem, i)
  {
    RewrittenIsIntact(mem, LoadedAll(mem), n, i);
  }

  /**
   * When `loadAll` reaches slot `i`, EEPROM still holds that slot's original
   * record and CRC, and writing the record back out gives the same bytes.
   */
  lemma RepairedReadsSlot(mem: seq<byte>, i: nat)
    requires |mem| == EepromLength && i < SlotsCount
    ensures var r, a := Repaired(mem, i), SlotAddress(i);
      && a + SlotEepromSize <= |r|
      && r[a..a + RecordSize] == StoredRecord(mem, i)
      && r[a + RecordSize] == StoredCrc(mem, i)
      && Encode(Decode(r[a..a + RecordSize])) == StoredRecord(mem, i)
      && Repaired(mem, i + 1) == if Intact(mem, i) then r else Saved(r, i, Loaded(mem, i))
  {
    RewrittenKeepsRest(mem, LoadedAll(mem), i, i);
    RepairedStep(mem, i);
    EncodeDecode(StoredRecord(mem, i));
  }

  /** `loadAll` never writes outside the slot region. */
  lemma RepairedKeepsOutside(mem: seq<byte>, k: nat)
    requires |mem| == EepromLength && RegionSize <= k < EepromLength
    ensures Repaired(mem, SlotsCount)[k] == mem[k]
  {
    RewrittenKeepsOutside(mem, LoadedAll(mem), SlotsCount, k);
  }

  /**
   * A second `loadAll` right after the first finds every slot intact, leaves
   * the slots as the first one did and reports the same count.
   */
  lemma LoadTwice(mem: seq<byte>)
    requires |mem| == EepromLength
    ensures var r := Repaired(mem, SlotsCount);
      && (forall i :: 0 <= i < SlotsCount ==> Intact(r, i) && Loaded(r, i) == Loaded(mem, i))
      && Repaired(r, SlotsCount) == r
      && ValidCount(r, SlotsCount) == ValidCount(mem, SlotsCount)
  {
    var r := Repaired(mem, SlotsCount);
    forall i | 0 <= i < SlotsCount
      ensures Intact(r, i) && Loaded(r, i) == Loaded(mem, i) && FilledAll(r)[i] == FilledAll(mem)[i]
    {
      RepairedIsIntact(mem, SlotsCount, i);
      SameLoadSameFilled(mem, r, i);
    }
    RewrittenIntactIsIdentity(r, LoadedAll(r), SlotsCount);
    CountSetSame(FilledAll(r), FilledAll(mem), SlotsCount);
  }

  /** An intact slot that loads as another image's slot counts as valid exactly when that one does. */
  lemma SameLoadSameFilled(mem: seq<byte>, r: seq<byte>, i: nat)
    requires |mem| == EepromLength && |r| == EepromLength && i < SlotsCount
    requires Intact(r, i) && Loaded(r, i) == Loaded(mem, i)
    ensures Filled(r, i) == Filled(mem, i)
  {
    FilledIsLoadedSignal(r, i);
    FilledIsLoadedSignal(mem, i);
    if !Intact(mem, i) {
      LoadedDamaged(mem, i);
    }
  }

  /** Writing one byte inside slot `i`'s record or CRC leaves every other slot loading as before. */
  lemma OneByteOthers(mem: seq<byte>, i: nat, a: nat, v: byte)
    requires |mem| == EepromLength && i < SlotsCount
    requires SlotAddress(i) <= a < SlotAddress(i) + SlotEepromSize
    ensures forall j :: 0 <= j < SlotsCount && j != i ==> Loaded(mem[a := v], j) == Loaded(mem, j)
  {
    var bad := mem[a := v];
    forall j | 0 <= j < SlotsCount && j != i ensures Loaded(bad, j) == Loaded(mem, j) {
      assert a < SlotAddress(j) || SlotAddress(j) + SlotEepromSize <= a by {
        if j < i { assert SlotAddress(j) + SlotEepromSize <= SlotAddress(i); }
        else { assert SlotAddress(i) + SlotEepromSize <= SlotAddress(j); }
      }
      assert StoredRecord(bad, j) == StoredRecord(mem, j);
      assert StoredCrc(bad, j) == StoredCrc(mem, j);
      SameSlotSameLoad(bad, mem, j);
    }
  }

  /**
   * A stored CRC byte that does not match the stored record makes the next
   * load reset that slot to its default name and the invalid signal, and
   * leaves every other slot as it was.
   */
  lemma CorruptCrcResets(mem: seq<byte>, i: nat, c: byte)
    requires |mem| == EepromLength && i < SlotsCount
    requires c != Crc8(StoredRecord(mem, i))
    ensures var bad := mem[SlotAddress(i) + RecordSize := c];
      && CStringOf(Loaded(bad, i).name) == DefaultName(i)
      && Loaded(bad, i).signal == SignalInvalid
      && forall j :: 0 <= j < SlotsCount && j != i ==> Loaded(bad, j) == Loaded(mem, j)
  {
    var bad := mem[SlotAddress(i) + RecordSize := c];
    assert StoredRecord(bad, i) == StoredRecord(mem, i);
    assert !Intact(bad, i);
    LoadedDamaged(bad, i);
    OneByteOthers(mem, i, SlotAddress(i) + RecordSize, c);
  }

  /**
   * Changing any one byte of an intact slot's stored record makes the next
   * load reset that slot to its default name and the invalid signal, and
   * leaves every other slot as it was.
   */
  lemma CorruptRecordResets(mem: seq<byte>, i: nat, k: nat, v: byte)
    requires |mem| == EepromLength && i < SlotsCount && Intact(mem, i)
    requires k < RecordSize && v != mem[SlotAddress(i) + k]
    ensures var bad := mem[SlotAddress(i) + k := v];
      && CStringOf(Loaded(bad, i).name) == DefaultName(i)
      && Loaded(bad, i).signal == SignalInvalid
      && forall j :: 0 <= j < SlotsCount && j != i ==> Loaded(bad, j) == Loaded(mem, j)
  {
    RecordChangeBreaks(mem, i, k, v);
    LoadedDamaged(mem[SlotAddress(i) + k := v], i);
    OneByteOthers(mem, i, SlotAddress(i) + k, v);
  }

  /** One changed record byte turns an intact slot into a damaged one. */
  lemma RecordChangeBreaks(mem: seq<byte>, i: nat, k: nat, v: byte)
    requires |mem| == EepromLength && i < SlotsCount && Intact(mem, i)
    requires k < RecordSize && v != mem[SlotAddress(i) + k]
    ensures !Intact(mem[SlotAddress(i) + k := v], i)
  {
    var bad := mem[SlotAddress(i) + k := v];
    var r1, r2 := StoredRecord(mem, i), StoredRecord(bad, i);
    assert r2[k] == v && r1[k] == mem[SlotAddress(i) + k];
    assert forall q :: 0 <= q < RecordSize && q != k ==> r1[q] == r2[q];
    CrcDetectsByteChange(r1, r2, k);
    assert StoredCrc(bad, i) == StoredCrc(mem, i);
  }

  /** `Loaded` depends only on the slot's own record and CRC bytes. */
  lemma SameSlotSameLoad(a: seq<byte>, b: seq<byte>, j: nat)
    requires |a| == EepromLength && |b| == EepromLength && j < SlotsCount
    requires StoredRecord(a, j) == StoredRecord(b, j) && StoredCrc(a, j) == StoredCrc(b, j)
    ensures Loaded(a, j) == Loaded(b, j)
  {
  }

  function Ones(n: nat): (s: seq<byte>)
    ensures |s| == n && forall k :: 0 <= k < n ==> s[k] == EraseByte
  {
    seq(n, _ => EraseByte)
  }

  lemma OnesStep(c: bv8, n: nat)
    ensures CrcFrom(c, Ones(n + 1)) == CrcFrom(CrcByte(c, EraseByte), Ones(n))
  {
    assert Ones(n + 1)[1..] == Ones(n);
  }

  /** The first ten 0xFF bytes of an erased record take the CRC register from 0x00 to 0xF5. */
  lemma ErasedCrcHead()
    ensures CrcFrom(0x00, Ones(29)) == CrcFrom(0xF5, Ones(19))
  {
    OnesStep(0x00, 28); assert CrcByte(0x00, EraseByte) == 0xF3;
    OnesStep(0xF3, 27); assert CrcByte(0xF3, EraseByte) == 0x24;
    OnesStep(0x24, 26); assert CrcByte(0x24, EraseByte) == 0x0F;
    OnesStep(0x0F, 25); assert CrcByte(0x0F, EraseByte) == 0xDE;
    OnesStep(0xDE, 24); assert CrcByte(0xDE, EraseByte) == 0xE7;
    OnesStep(0xE7, 23); assert CrcByte(0xE7, EraseByte) == 0x48;
    OnesStep(0x48, 22); assert CrcByte(0x48, EraseByte) == 0x0C;
    OnesStep(0x0C, 21); assert CrcByte(0x0C, EraseByte) == 0xD7;
    OnesStep(0xD7, 20); assert CrcByte(0xD7, EraseByte) == 0xD8;
    OnesStep(0xD8, 19); assert CrcByte(0xD8, EraseByte) == 0xF5;
  }

  /** The next ten take it from 0xF5 to 0x41. */
  lemma ErasedCrcMiddle()
    ensures CrcFrom(0xF5, Ones(19)) == CrcFrom(0x41, Ones(9))
  {
    OnesStep(0xF5, 18); assert CrcByte(0xF5, EraseByte) == 0x36;
    OnesStep(0x36, 17); assert CrcByte(0x36, EraseByte) == 0x71;
    OnesStep(0x71, 16); assert CrcByte(0x71, EraseByte) == 0xA3;
    OnesStep(0xA3, 15); assert CrcByte(0xA3, EraseByte) == 0x93;
    OnesStep(0x93, 14); assert CrcByte(0x93, EraseByte) == 0x03;
    OnesStep(0x03, 13); assert CrcByte(0x03, EraseByte) == 0xFA;
    OnesStep(0xFA, 12); assert CrcByte(0xFA, EraseByte) == 0x1B;
    OnesStep(0x1B, 11); assert CrcByte(0x1B, EraseByte) == 0xB2;
    OnesStep(0xB2, 10); assert CrcByte(0xB2, EraseByte) == 0xE4;
    OnesStep(0xE4, 9); assert CrcByte(0xE4, EraseByte) == 0x41;
  }

  /** The next eight take it from 0x41 to 0x18; the last one gives 0xBB. */
  lemma ErasedCrcTail()
    ensures CrcFrom(0x41, Ones(9)) == CrcFrom(0x18, Ones(1))
  {
    OnesStep(0x41, 8); assert CrcByte(0x41, EraseByte) == 0x33;
    OnesStep(0x33, 7); assert CrcByte(0x33, EraseByte) == 0x6A;
    OnesStep(0x6A, 6); assert CrcByte(0x6A, EraseByte) == 0xE2;
    OnesStep(0xE2, 5); assert CrcByte(0xE2, EraseByte) == 0x53;
    OnesStep(0x53, 4); assert CrcByte(0x53, EraseByte) == 0x4D;
    OnesStep(0x4D, 3); assert CrcByte(0x4D, EraseByte) == 0x17;
    OnesStep(0x17, 2); assert CrcByte(0x17, EraseByte) == 0x96;
    OnesStep(0x96, 1); assert CrcByte(0x96, EraseByte) == 0x18;
  }

  /**
   * The CRC of an erased record is 0xBB, so it never matches the erased CRC
   * byte 0xFF.
   */
  lemma ErasedRecordCrc()
    ensures Crc8(Ones(RecordSize)) == 0xBB
  {
    ErasedCrcHead();
    ErasedCrcMiddle();
    ErasedCrcTail();
    OnesStep(0x18, 0);
    assert CrcByte(0x18, EraseByte) == 0xBB;
    assert Ones(0) == [];
  }

  /**
   * `eraseAll` followed by `loadAll`: no slot counts as valid, and every slot
   * comes back with its default name and the invalid signal.
   */
  lemma EraseThenLoad(mem: seq<byte>)
    requires |mem| == EepromLength
    ensures ValidCount(Erased(mem), SlotsCount) == 0
    ensures forall i :: 0 <= i < SlotsCount ==>
              CStringOf(Loaded(Erased(mem), i).name) == DefaultName(i) && Loaded(Erased(mem), i).signal == SignalInvalid
  {
    var e := Erased(mem);
    ErasedRecordCrc();
    forall i | 0 <= i < SlotsCount ensures !Intact(e, i) {
      SlotInRegion(i);
      assert StoredRecord(e, i) == Ones(RecordSize);
      assert StoredCrc(e, i) == EraseByte;
    }
    ValidCountZero(e, SlotsCount);
    forall i | 0 <= i < SlotsCount
      ensures CStringOf(Loaded(e, i).name) == DefaultName(i) && Loaded(e, i).signal == SignalInvalid
    {
      LoadedDamaged(e, i);
    }
  }

  // ---------------------------------------------------------------------------
  // The store
  // ---------------------------------------------------------------------------

  class SlotStore {
    /** The in-memory slot list. */
    const slots: array<SlotItem>
    /** The EEPROM, byte-addressed. */
    var eeprom: seq<byte>

    ghost predicate Valid()
      reads this
    {
      slots.Length == SlotsCount && |eeprom| == EepromLength
    }

    /** Slots start zero-initialised; `storage` is whatever the EEPROM holds at power-on. */
    constructor (storage: seq<byte>)
      requires |storage| == EepromLength
      ensures Valid() && fresh(slots) && eeprom == storage
      ensures forall i :: 0 <= i < SlotsCount ==> slots[i] == ZeroItem
    {
      slots := new SlotItem[SlotsCount](_ => ZeroItem);
      eeprom := storage;
    }

    /** The signal of slot `i`, or the invalid signal when `i` is out of range. */
    function GetSignal(i: uint8): (signal: Signal)
      reads this, slots
      requires Valid()
      ensures i < SlotsCount ==> signal == slots[i].signal
      ensures i >= SlotsCount ==> signal == SignalInvalid
    {
      if i < SlotsCount then slots[i].signal else SignalInvalid
    }

    /** The name of slot `i`, or None (a null pointer) when `i` is out of range. */
    function GetName(i: uint8): (name: Option<seq<byte>>)
      reads this, slots
      requires Valid()
      ensures name.Some? <==> i < SlotsCount
      ensures name.Some? ==> |name.value| <= NameBufferSize && NoNul(name.value)
      ensures name.Some? ==> name.value == slots[i].name[..|name.value|]
      ensures name.Some? && |name.value| < NameBufferSize ==> slots[i].name[..|name.value| + 1] == name.value + [Nul]
    {
      if i < SlotsCount then Some(CStringOf(slots[i].name)) else None
    }

    method SetSignal(i: uint8, signal: Signal)
      requires Valid()
      modifies slots
      ensures Valid()
      ensures forall j :: 0 <= j < SlotsCount && j != i ==> slots[j] == old(slots[j])
      ensures i < SlotsCount ==> slots[i] == old(slots[i]).(signal := signal)
      ensures GetSignal(i) == if i < SlotsCount then signal else SignalInvalid
      ensures forall j: uint8 :: j != i ==> GetSignal(j) == old(GetSignal(j))
      ensures forall j: uint8 :: GetName(j) == old(GetName(j))
    {
      if i < SlotsCount {
        slots[i] := slots[i].(signal := signal);
      }
    }

    /** Stores `name` (a C string) truncated to `NameLengthMax` characters. */
    method SetName(i: uint8, name: seq<byte>)
      requires Valid() && NoNul(name)
      modifies slots
      ensures Valid()
      ensures forall j :: 0 <= j < SlotsCount && j != i ==> slots[j] == old(slots[j])
      ensures i < SlotsCount ==> slots[i] == old(slots[i]).(name := WriteName(old(slots[i].name), name))
      ensures GetName(i) == if i < SlotsCount then Some(Truncated(name)) else None
      ensures forall j: uint8 :: j != i ==> GetName(j) == old(GetName(j))
      ensures forall j: uint8 :: GetSignal(j) == old(GetSignal(j))
    {
      if i < SlotsCount {
        slots[i] := slots[i].(name := WriteName(slots[i].name, name));
      }
    }

    /** Gives slot `i` its default name `"Slot NN"` and the invalid signal. */
    method Reset(i: uint8)
      requires Valid()
      modifies slots
      ensures Valid()
      ensures forall j :: 0 <= j < SlotsCount && j != i ==> slots[j] == old(slots[j])
      ensures i < SlotsCount ==> slots[i] == ResetItem(old(slots[i]), i)
      ensures i < SlotsCount ==> GetName(i) == Some(DefaultName(i)) && GetSignal(i) == SignalInvalid
    {
      if i < SlotsCount {
        ResetItemName(slots[i], i);
        slots[i] := ResetItem(slots[i], i);
      }
    }

    /** Writes slot `i`'s record and then its CRC byte. */
    method Save(i: uint8)
      requires Valid()
      modifies this
      ensures Valid()
      ensures eeprom == if i < SlotsCount then Saved(old(eeprom), i, slots[i]) else old(eeprom)
    {
      if i < SlotsCount {
        var bs := Encode(slots[i]);
        var crc := Crc8(bs);
        var slotAddress := SlotAddress(i);
        var crcAddress := slotAddress + RecordSize;
        eeprom := Put(eeprom, slotAddress, bs);
        eeprom := Put(eeprom, crcAddress, [crc]);
      }
    }

    /** Resets slot `i` and writes it back: what `loadAll` does with a damaged slot. */
    method Repair(i: uint8)
      requires Valid() && i < SlotsCount
      modifies this, slots
      ensures Valid()
      ensures slots[i] == ResetItem(old(slots[i]), i)
      ensures forall j :: 0 <= j < SlotsCount && j != i ==> slots[j] == old(slots[j])
      ensures eeprom == Saved(old(eeprom), i, slots[i])
    {
      Reset(i);
      Save(i);
    }

    /**
     * Reads every slot from EEPROM; a slot whose CRC does not match is reset
     * and written back. Returns how many intact slots hold a signal.
     */
    method LoadAll() returns (validCount: uint8)
      requires Valid()
      modifies this, slots
      ensures Valid()
      ensures forall i :: 0 <= i < SlotsCount ==> slots[i] == Loaded(old(eeprom), i)
      ensures eeprom == Repaired(old(eeprom), SlotsCount)
      ensures validCount == ValidCount(old(eeprom), SlotsCount)
    {
      ghost var mem := eeprom;
      validCount := 0;
      var slotIdx: uint8 := 0;
      while slotIdx < SlotsCount
        invariant Valid()
        invariant 0 <= slotIdx <= SlotsCount
        invariant eeprom == Repaired(mem, slotIdx)
        invariant forall j :: 0 <= j < slotIdx ==> slots[j] == Loaded(mem, j)
        invariant validCount == ValidCount(mem, slotIdx)
      {
        var filled := LoadSlot(slotIdx, mem);
        assert ValidCount(mem, slotIdx + 1) == ValidCount(mem, slotIdx) + if filled then 1 else 0;
        if filled {
          validCount := validCount + 1;
        }
        slotIdx := slotIdx + 1;
      }
    }

    /**
     * One round of `LoadAll`: reads slot `i`, checks its CRC, and on a
     * mismatch resets it and writes it back. Reports whether the slot counts
     * as valid. `mem` is the EEPROM as it was before the load began.
     */
    method LoadSlot(i: uint8, ghost mem: seq<byte>) returns (filled: bool)
      requires Valid() && i < SlotsCount && |mem| == EepromLength
      requires eeprom == Repaired(mem, i)
      modifies this, slots
      ensures Valid()
      ensures slots[i] == Loaded(mem, i)
      ensures forall j :: 0 <= j < SlotsCount && j != i ==> slots[j] == old(slots[j])
      ensures eeprom == Repaired(mem, i + 1)
      ensures filled == Filled(mem, i)
    {
      var slotAddress := SlotAddress(i);
      var crcAddress := slotAddress + RecordSize;
      RepairedReadsSlot(mem, i);
      slots[i] := Decode(eeprom[slotAddress..slotAddress + RecordSize]);
      var crc8 := eeprom[crcAddress];
      var calcCrc8 := Crc8(Encode(slots[i]));
      assert calcCrc8 == crc8 <==> Intact(mem, i);
      filled := false;
      if calcCrc8 == crc8 {
        if slots[i].signal != SignalInvalid {
          filled := true;
        }
      } else {
        Repair(i);
      }
    }

    /** Fills the whole slot region of EEPROM with 0xFF. */
    method EraseAll()
      requires Valid()
      modifies this
      ensures Valid()
      ensures eeprom == Erased(old(eeprom))
    {
      var itemsSize := SlotsCount * (RecordSize + 1);
      for idx := 0 to itemsSize
        invariant |eeprom| == EepromLength
        invariant forall k :: 0 <= k < idx ==> eeprom[k] == EraseByte
        invariant forall k :: idx <= k < EepromLength ==> eeprom[k] == old(eeprom[k])
      {
        eeprom := eeprom[idx := EraseByte];
      }
    }
  }
}
