/** The record store as the firmware runs it (firmware/source/eeprom.c): the
    flash and the in-RAM table are arrays updated in place, and every method
    is proved to do exactly what the matching function of StoreSpec says. */
module EepromStore {
  import opened Bytes
  import opened Optional
  import opened Record
  import opened Rat
  import opened StoreSpec
  import StoreProps

  class Eeprom {
    /** The 4 KiB data flash, eight erase pages of 512 bytes. */
    const flash: array<byte>
    /** `static struct record_allocation_table rat`: 16 group bytes, then `err`. */
    const rat: array<byte>
    /** Which programming-controller commands fail, by issue number. */
    const faulty: nat -> bool
    /** Controller commands issued since power-up. */
    var ops: nat

    predicate Valid()
    {
      flash.Length == FLASH_SIZE && rat.Length == RAT_SIZE && flash != rat
    }

    ghost function State(): (s: Store)
      reads this, flash, rat
      requires Valid()
      ensures s.Wf()
    {
      Store(flash[..], rat[..], ops)
    }

    /** Power-up: the flash keeps its contents, the table in RAM is zeroed. */
    constructor (image: seq<byte>, faulty: nat -> bool)
      requires |image| == FLASH_SIZE
      ensures Valid() && fresh(flash) && fresh(rat) && this.faulty == faulty
      ensures State() == Store(image, seq(RAT_SIZE, _ => 0), 0)
    {
      flash := new byte[FLASH_SIZE](i requires 0 <= i < FLASH_SIZE => image[i]);
      rat := new byte[RAT_SIZE](_ => 0);
      this.faulty := faulty;
      ops := 0;
    }

    /** `eeprom_read_byte` (firmware/source/eeprom.c:34-50): one read command. */
    method ReadByte(addr: uint16) returns (ok: bool, b: byte)
      requires Valid()
      modifies this
      ensures ops == old(ops) + 1
      ensures ok <==> !faulty(old(ops)) && addr < FLASH_SIZE
      ensures ok ==> b == flash[addr]
    {
      ops := ops + 1;
      if faulty(ops - 1) || addr >= FLASH_SIZE {
        return false, 0;
      }
      return true, flash[addr];
    }

    /** `eeprom_write_byte` (firmware/source/eeprom.c:60-76): programming can
        only clear bits. */
    method WriteByte(addr: uint16, b: byte) returns (ok: bool)
      requires Valid()
      modifies this, flash
      ensures ops == old(ops) + 1
      ensures ok <==> !faulty(old(ops)) && addr < FLASH_SIZE
      ensures flash[..] == if ok then old(flash[..])[addr := And(old(flash[addr]), b)] else old(flash[..])
    {
      ops := ops + 1;
      if faulty(ops - 1) || addr >= FLASH_SIZE {
        return false;
      }
      flash[addr] := And(flash[addr], b);
      ok := true;
    }

    /** `eeprom_erase` (firmware/source/eeprom.c:128-143): sets the whole page
        holding `addr` to 0xFF. */
    method Erase(addr: uint16) returns (ok: bool)
      requires Valid()
      modifies this, flash
      ensures ops == old(ops) + 1
      ensures ok <==> !faulty(old(ops)) && addr < FLASH_SIZE
      ensures flash[..] == if ok then ErasePage(old(flash[..]), addr / PAGE_SIZE) else old(flash[..])
    {
      ops := ops + 1;
      if faulty(ops - 1) || addr >= FLASH_SIZE {
        return false;
      }
      var page := addr / PAGE_SIZE;
      forall a | page * PAGE_SIZE <= a < (page + 1) * PAGE_SIZE {
        flash[a] := ERASED;
      }
      ok := true;
    }

    /** `eeprom_read_bytes` (firmware/source/eeprom.c:87-97). The buffer may be
        the table itself, as in `eeprom_init`. */
    method ReadBytes(addr: uint16, dst: array<byte>, size: byte) returns (n: int)
      requires Valid() && dst != flash && size <= dst.Length
      modifies this, dst
      ensures var (s, b, m) := StoreSpec.ReadBytes(faulty, old(State()), addr, old(dst[..]), size);
        && ops == s.ops && flash[..] == old(flash[..]) && dst[..] == b && n == m
        && (dst != rat ==> rat[..] == old(rat[..]))
    {
      ghost var start, image, before := ops, flash[..], dst[..];
      var i: byte := 0;
      while i < size
        invariant i <= size && (i == 0 || addr + i <= FLASH_SIZE)
        invariant NoFaults(faulty, start, i) && ops == start + i
        invariant flash[..] == image && |dst[..]| == |before|
        invariant forall j :: 0 <= j < dst.Length ==> dst[j] == if j < i then image[addr + j] else before[j]
        invariant dst != rat ==> rat[..] == old(rat[..])
        decreases size - i
      {
        var ok, b := ReadByte(ToUint16(addr + i));
        if !ok {
          CompletedIs(faulty, start, addr, size, i);
          ReadBytesIs(faulty, old(State()), addr, before, size, i, dst[..]);
          return -1;
        }
        dst[i] := b;
        i := i + 1;
      }
      CompletedIs(faulty, start, addr, size, size);
      ReadBytesIs(faulty, old(State()), addr, before, size, size, dst[..]);
      return Int8(size);
    }

    /** `eeprom_write_bytes` (firmware/source/eeprom.c:109-119); `data` is
        the `size` bytes that `eeprom_write_bytes` reads through its pointer. */
    method WriteBytes(addr: uint16, data: seq<byte>) returns (n: int)
      requires Valid() && |data| < BYTE_MOD
      modifies this, flash
      ensures (State(), n) == StoreSpec.WriteBytes(faulty, old(State()), addr, data)
    {
      ghost var start, before, table := ops, flash[..], rat[..];
      var size: byte := |data|;
      var i: byte := 0;
      while i < size
        invariant i <= size && (i == 0 || addr + i <= FLASH_SIZE)
        invariant rat[..] == table
        invariant NoFaults(faulty, start, i) && ops == start + i
        invariant flash[..] == Program(before, addr, data, i)
        decreases size - i
      {
        var ok := WriteByte(ToUint16(addr + i), data[i]);
        if !ok {
          CompletedIs(faulty, start, addr, size, i);
          WriteBytesIs(faulty, old(State()), addr, data, i);
          return -1;
        }
        ProgramStep(before, addr, data, i);
        i := i + 1;
      }
      CompletedIs(faulty, start, addr, size, size);
      WriteBytesIs(faulty, old(State()), addr, data, size);
      return Int8(size);
    }

    /** The first half of `eeprom_format` (firmware/source/eeprom.c:152-183):
        the firmware erases pages 0 to 7 in eight consecutive calls, giving up
        at the first failure; the loop makes the same calls in the same order. */
    method EraseAll() returns (ok: bool)
      requires Valid()
      modifies this, flash
      ensures var e := Leading(faulty, old(ops), PAGE_COUNT);
        && ok == (e == PAGE_COUNT) && flash[..] == ErasePages(old(flash[..]), e)
        && ops == old(ops) + (if ok then e else e + 1)
    {
      ghost var start, before := ops, flash[..];
      var p := 0;
      while p < PAGE_COUNT
        invariant p <= PAGE_COUNT && NoFaults(faulty, start, p) && ops == start + p
        invariant flash[..] == ErasePages(before, p)
      {
        var ok := Erase(p * PAGE_SIZE);
        if !ok {
          LeadingIs(faulty, start, PAGE_COUNT, p);
          return false;
        }
        ErasePagesStep(before, p);
        p := p + 1;
      }
      LeadingIs(faulty, start, PAGE_COUNT, PAGE_COUNT);
      return true;
    }

    /** `eeprom_format` (firmware/source/eeprom.c:150-198). */
    method Format() returns (r: int)
      requires Valid()
      modifies this, flash, rat
      ensures (State(), r) == StoreSpec.Format(faulty, old(State()))
    {
      ghost var s0 := State();
      var erased := EraseAll();
      if !erased {
        assert State() == s0.(flash := flash[..], ops := ops);
        return -1;
      }
      ghost var image, issued := flash[..], ops;
      rat[0] := 0xFE;
      for i := 1 to GROUP_COUNT
        invariant rat[0] == 0xFE && forall j :: 1 <= j < i ==> rat[j] == ERASED
        invariant flash[..] == image && ops == issued
      {
        rat[i] := ERASED;
      }
      rat[ERR_INDEX] := 0;
      StoreProps.TableOne();
      assert rat[..] == FormattedRat();
      assert State() == Store(ErasePages(s0.flash, PAGE_COUNT), FormattedRat(), s0.ops + PAGE_COUNT);
      var n := WriteBytes(0, rat[..]);
      if n < 0 {
        return -1;
      }
      return 0;
    }

    /** Index of the first group byte that is not 0x00, as both lookups scan. */
    method FindOpenGroup() returns (g: nat)
      requires Valid()
      ensures g == FirstOpen(rat[..GROUP_COUNT])
    {
      g := 0;
      while g < GROUP_COUNT && rat[g] == 0
        invariant g <= GROUP_COUNT && forall i :: 0 <= i < g ==> rat[i] == 0
      {
        g := g + 1;
      }
      FirstOpenIs(rat[..GROUP_COUNT], g);
    }

    /** `get_read_addr` (firmware/source/eeprom.c:203-247). */
    method GetReadAddr() returns (r: Outcome<uint16>)
      requires Valid()
      modifies this, flash, rat
      ensures (State(), r) == StoreSpec.GetReadAddr(faulty, old(State()))
    {
      var g := FindOpenGroup();
      if g == GROUP_COUNT {
        return Returned((SLOTS_PER_GROUP * GROUP_COUNT - 1) * RECORD_SIZE);
      }
      match SlotsUsed(rat[g])
      case Some(k) =>
        return Returned(ToUint16((SLOTS_PER_GROUP * g - 1 + k) * RECORD_SIZE));
      case None =>
        rat[ERR_INDEX] := 1;
        var _ := WriteBytes(0, rat[..]);
        return Rebooted;
    }

    /** What `allocate_write_addr` does once every slot is taken
        (firmware/source/eeprom.c:261-269): format, mark slot 1 taken on top of
        the table's own slot 0, and hand out slot 1. The format's result is
        ignored. */
    method Rewind() returns (a: uint16)
      requires Valid()
      modifies this, flash, rat
      ensures var f := StoreSpec.Format(faulty, old(State())).0;
        var (t, n) := StoreSpec.WriteBytes(faulty, f.(rat := f.rat[0 := 0xFC]), 0, f.rat[0 := 0xFC]);
        && State() == t && a == if n < 0 then ALLOCATE_FAILED else RECORD_SIZE
    {
      var _ := Format();
      rat[0] := 0xFC;
      var n := WriteBytes(0, rat[..]);
      if n < 0 {
        return ALLOCATE_FAILED;
      }
      return RECORD_SIZE;
    }

    /** `allocate_write_addr` (firmware/source/eeprom.c:252-350). */
    method AllocateWriteAddr() returns (r: Outcome<uint16>)
      requires Valid()
      modifies this, flash, rat
      ensures (State(), r) == StoreSpec.AllocateWriteAddr(faulty, old(State()))
    {
      ghost var s0 := State();
      var g := FindOpenGroup();
      if g == GROUP_COUNT {
        assert Allocate(s0.Groups()) == Wrap;
        var a := Rewind();
        return Returned(a);
      }
      match SlotsUsed(rat[g])
      case Some(k) =>
        ghost var next := s0.Groups()[g := Pattern(k + 1)];
        assert Allocate(s0.Groups()) == Advance(next, (SLOTS_PER_GROUP * g + k) * RECORD_SIZE);
        rat[g] := Pattern(k + 1);
        assert State() == s0.(rat := next + [s0.rat[ERR_INDEX]]);
        var n := WriteBytes(0, rat[..]);
        if n < 0 {
          return Returned(ALLOCATE_FAILED);
        }
        return Returned((SLOTS_PER_GROUP * g + k) * RECORD_SIZE);
      case None =>
        assert Allocate(s0.Groups()) == Corrupt;
        rat[ERR_INDEX] := 1;
        assert State() == s0.(rat := s0.rat[ERR_INDEX := 1]);
        var _ := WriteBytes(0, rat[..]);
        return Rebooted;
    }

    /** `eeprom_read_record` (firmware/source/eeprom.c:384-388). */
    method ReadRecord(record: array<byte>) returns (r: Outcome<()>)
      requires Valid() && record.Length == CONFIG_RECORD_SIZE && record != flash && record != rat
      modifies this, flash, rat, record
      ensures var (s, b, o) := StoreSpec.ReadRecord(faulty, old(State()), old(record[..]));
        State() == s && record[..] == b && r == o
    {
      var a := GetReadAddr();
      if a.Rebooted? {
        return Rebooted;
      }
      var _ := ReadBytes(a.value, record, CONFIG_RECORD_SIZE);
      return Returned(());
    }

    /** `eeprom_write_record` (firmware/source/eeprom.c:393-397). */
    method WriteRecord(record: seq<byte>) returns (r: Outcome<()>)
      requires Valid() && |record| == CONFIG_RECORD_SIZE
      modifies this, flash, rat
      ensures (State(), r) == StoreSpec.WriteRecord(faulty, old(State()), record)
    {
      var a := AllocateWriteAddr();
      if a.Rebooted? {
        return Rebooted;
      }
      var _ := WriteBytes(a.value, record);
      return Returned(());
    }

    /** `eeprom_init` (firmware/source/eeprom.c:355-379). */
    method Init() returns (r: Outcome<()>)
      requires Valid()
      modifies this, flash, rat
      ensures (State(), r) == StoreSpec.Init(faulty, old(State()))
    {
      var n := ReadBytes(0, rat, RAT_SIZE as byte);
      if n < 0 {
        return Rebooted;
      }
      if And(rat[0], 0x01) != 0 || rat[ERR_INDEX] != 0 {
        var _ := Format();
        r := WriteRecord(Serialize(DefaultRecord()));
        return;
      }
      return Returned(());
    }
  }
}
