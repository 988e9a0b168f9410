/** The wear-levelling record store as a function of its state
    (firmware/source/eeprom.c). The on-chip programming controller is
    abstracted to fallible byte reads, byte writes and page erases: the n-th
    command issued since power-up fails when the oracle `faulty(n)` says so,
    and any command on an address outside the 4 KiB flash fails too. Writing
    a byte programs it, which can only clear bits (the flash byte becomes the
    AND of old and new); only an erase sets a whole page back to 0xFF. */
module StoreSpec {
  import opened Bytes
  import opened Optional
  import opened Record
  import opened Rat

  const PAGE_SIZE: nat := 0x200
  const PAGE_COUNT: nat := 8
  const FLASH_SIZE: nat := PAGE_SIZE * PAGE_COUNT
  const ERASED: byte := 0xFF

  /** `(uint16_t)-1`: what `allocate_write_addr` returns when the table write fails. */
  const ALLOCATE_FAILED: uint16 := 0xFFFF

  /** A store operation either returns or ends in `reboot()`. */
  datatype Outcome<T> = Returned(value: T) | Rebooted

  /** The flash image, the in-RAM copy of the table (16 groups then `err`),
      and how many controller commands have been issued so far. */
  datatype Store = Store(flash: seq<byte>, rat: seq<byte>, ops: nat)
  {
    predicate Wf()
    {
      |flash| == FLASH_SIZE && |rat| == RAT_SIZE
    }

    function Groups(): seq<byte>
      requires Wf()
    {
      rat[..GROUP_COUNT]
    }
  }

  // ---------------------------------------------------------------------------
  // The fault oracle

  /** The number of commands from number `start` on that succeed before the
      first one that fails, at most n. */
  function Leading(faulty: nat -> bool, start: nat, n: nat): (k: nat)
    ensures k <= n
    ensures NoFaults(faulty, start, k)
    ensures k < n ==> faulty(start + k)
  {
    if n == 0 then 0
    else
      var k := Leading(faulty, start, n - 1);
      if k < n - 1 then k else if faulty(start + n - 1) then n - 1 else n
  }

  /** How many bytes of a `size`-byte transfer at `addr` go through before the
      first failing byte command. */
  function Completed(faulty: nat -> bool, start: nat, addr: int, size: nat): (k: nat)
    requires 0 <= addr
    ensures k <= size
    ensures NoFaults(faulty, start, k) && (k > 0 ==> addr + k <= FLASH_SIZE)
    ensures k < size ==> faulty(start + k) || addr + k >= FLASH_SIZE
  {
    var l := Leading(faulty, start, size);
    var room := if addr < FLASH_SIZE then FLASH_SIZE - addr else 0;
    if l <= room then l else room
  }

  /** Commands a byte loop issues: every byte up to and including the failing one. */
  function Issued(k: nat, size: nat): nat
  {
    if k == size then size else k + 1
  }

  predicate NoFaults(faulty: nat -> bool, from: nat, count: nat)
  {
    forall j :: from <= j < from + count ==> !faulty(j)
  }

  /** The leading run of good commands is pinned down by its first failure. */
  lemma {:induction false} LeadingIs(faulty: nat -> bool, start: nat, n: nat, k: nat)
    requires k <= n && NoFaults(faulty, start, k)
    requires k < n ==> faulty(start + k)
    ensures Leading(faulty, start, n) == k
    decreases n
  {
    if n > 0 && k < n {
      LeadingIs(faulty, start, n - 1, k);
    } else if n > 0 {
      LeadingIs(faulty, start, n - 1, n - 1);
    }
  }

  /** A byte loop that got through k bytes and stopped at the (k+1)-th, or
      finished, completed exactly k bytes. */
  lemma CompletedIs(faulty: nat -> bool, start: nat, addr: nat, size: nat, k: nat)
    requires k <= size && NoFaults(faulty, start, k) && (k == 0 || addr + k <= FLASH_SIZE)
    requires k < size ==> faulty(start + k) || addr + k >= FLASH_SIZE
    ensures Completed(faulty, start, addr, size) == k
  {
    if k < size && !faulty(start + k) {
      LeadingIs(faulty, start, size, Leading(faulty, start, size));
    } else {
      LeadingIs(faulty, start, size, k);
    }
  }

  lemma CompletedNoFaults(faulty: nat -> bool, start: nat, addr: nat, size: nat)
    requires NoFaults(faulty, start, size) && addr + size <= FLASH_SIZE
    ensures Completed(faulty, start, addr, size) == size
  {
  }

  // ---------------------------------------------------------------------------
  // Byte store

  /** The flash after the first k bytes of `data` were programmed at `addr`. */
  function Program(mem: seq<byte>, addr: int, data: seq<byte>, k: nat): (r: seq<byte>)
    requires k <= |data|
    ensures |r| == |mem|
    ensures forall a {:trigger r[a]} :: 0 <= a < |mem| ==>
              r[a] == if addr <= a < addr + k then And(mem[a], data[a - addr]) else mem[a]
  {
    seq(|mem|, a requires 0 <= a < |mem| => if addr <= a < addr + k then And(mem[a], data[a - addr]) else mem[a])
  }

  /** Programming one more byte extends the programmed prefix by one. */
  lemma ProgramStep(mem: seq<byte>, addr: nat, data: seq<byte>, k: nat)
    requires k < |data| && addr + k < |mem|
    ensures var p := Program(mem, addr, data, k);
      p[addr + k := And(p[addr + k], data[k])] == Program(mem, addr, data, k + 1)
  {
  }

  /** Programming can only clear bits: every flash byte afterwards is a
      sub-mask of the byte it replaced, so only an erase can set a bit again. */
  lemma ProgramOnlyClears(mem: seq<byte>, addr: int, data: seq<byte>, k: nat)
    requires k <= |data|
    ensures var r := Program(mem, addr, data, k);
      forall a :: 0 <= a < |mem| ==> And(r[a], mem[a]) == r[a]
  {
    var r := Program(mem, addr, data, k);
    forall a | 0 <= a < |mem| ensures And(r[a], mem[a]) == r[a] {
      if addr <= a < addr + k {
        AndSubmask(mem[a], data[a - addr]);
      } else {
        AndIdempotent(mem[a]);
      }
    }
  }

  /** The flash after the first p pages were erased. */
  function ErasePages(mem: seq<byte>, p: nat): (r: seq<byte>)
    ensures |r| == |mem|
    ensures forall a {:trigger r[a]} :: 0 <= a < |mem| ==> r[a] == if a < p * PAGE_SIZE then ERASED else mem[a]
  {
    seq(|mem|, a requires 0 <= a < |mem| => if a < p * PAGE_SIZE then ERASED else mem[a])
  }

  /** The flash after page p alone was erased. */
  function ErasePage(mem: seq<byte>, p: nat): (r: seq<byte>)
    ensures |r| == |mem|
    ensures forall a {:trigger r[a]} :: 0 <= a < |mem| ==>
              r[a] == if p * PAGE_SIZE <= a < (p + 1) * PAGE_SIZE then ERASED else mem[a]
  {
    seq(|mem|, a requires 0 <= a < |mem| => if p * PAGE_SIZE <= a < (p + 1) * PAGE_SIZE then ERASED else mem[a])
  }

  /** Erasing the pages one after another in order erases a growing prefix. */
  lemma ErasePagesStep(mem: seq<byte>, p: nat)
    ensures ErasePage(ErasePages(mem, p), p) == ErasePages(mem, p + 1)
  {
  }

  /** `eeprom_write_bytes` (firmware/source/eeprom.c:109-119): the store and the result. */
  function WriteBytes(faulty: nat -> bool, s: Store, addr: uint16, data: seq<byte>): (r: (Store, int))
    requires s.Wf() && |data| < BYTE_MOD
    ensures r.0.Wf() && r.0.rat == s.rat
  {
    var k := Completed(faulty, s.ops, addr, |data|);
    (s.(flash := Program(s.flash, addr, data, k), ops := s.ops + Issued(k, |data|)),
     if k == |data| then Int8(|data|) else -1)
  }

  /** `eeprom_read_bytes` (firmware/source/eeprom.c:87-97) into the buffer `dst`:
      the store, the buffer afterwards and the result. */
  function ReadBytes(faulty: nat -> bool, s: Store, addr: uint16, dst: seq<byte>, size: byte): (r: (Store, seq<byte>, int))
    requires s.Wf() && size <= |dst|
    ensures r.0 == s.(ops := r.0.ops) && |r.1| == |dst|
  {
    var k := Completed(faulty, s.ops, addr, size);
    (s.(ops := s.ops + Issued(k, size)),
     seq(|dst|, i requires 0 <= i < |dst| => if i < k then s.flash[addr + i] else dst[i]),
     if k == size then Int8(size) else -1)
  }

  /** A write loop that stopped after k bytes, k being what `Completed` says,
      has done exactly what `WriteBytes` describes. */
  lemma WriteBytesIs(faulty: nat -> bool, s: Store, addr: uint16, data: seq<byte>, k: nat)
    requires s.Wf() && |data| < BYTE_MOD && Completed(faulty, s.ops, addr, |data|) == k
    ensures WriteBytes(faulty, s, addr, data) ==
              (s.(flash := Program(s.flash, addr, data, k), ops := s.ops + Issued(k, |data|)),
               if k == |data| then Int8(|data|) else -1)
  {
  }

  /** A read loop that stopped after k bytes, k being what `Completed` says,
      has done exactly what `ReadBytes` describes. */
  lemma ReadBytesIs(faulty: nat -> bool, s: Store, addr: uint16, dst: seq<byte>, size: byte, k: nat, buf: seq<byte>)
    requires s.Wf() && size <= |dst| && Completed(faulty, s.ops, addr, size) == k
    requires |buf| == |dst|
    requires forall j :: 0 <= j < |dst| ==> buf[j] == if j < k then s.flash[addr + j] else dst[j]
    ensures ReadBytes(faulty, s, addr, dst, size) ==
              (s.(ops := s.ops + Issued(k, size)), buf, if k == size then Int8(size) else -1)
  {
    var r := ReadBytes(faulty, s, addr, dst, size);
    assert r.0 == s.(ops := s.ops + Issued(k, size));
    assert r.2 == if k == size then Int8(size) else -1;
    assert forall j :: 0 <= j < |dst| ==> r.1[j] == buf[j];
    assert r.1 == buf;
  }

  /** The table a successful format leaves: one slot (the table's own) taken, `err` clear. */
  function FormattedRat(): (r: seq<byte>)
    ensures |r| == RAT_SIZE
  {
    Table(1) + [0]
  }

  /** `eeprom_format` (firmware/source/eeprom.c:150-198). */
  function Format(faulty: nat -> bool, s: Store): (r: (Store, int))
    requires s.Wf()
    ensures r.0.Wf()
    ensures r.1 == 0 || r.1 == -1
    ensures r.1 == 0 ==> r.0.rat == FormattedRat()
  {
    var e := Leading(faulty, s.ops, PAGE_COUNT);
    if e < PAGE_COUNT then
      (s.(flash := ErasePages(s.flash, e), ops := s.ops + e + 1), -1)
    else
      var erased := Store(ErasePages(s.flash, PAGE_COUNT), FormattedRat(), s.ops + PAGE_COUNT);
      var (t, n) := WriteBytes(faulty, erased, 0, erased.rat);
      (t, if n < 0 then -1 else 0)
  }

  /** The corruption path shared by both lookups: set `err`, write the table, reboot. */
  function MarkCorrupt(faulty: nat -> bool, s: Store): (r: (Store, Outcome<uint16>))
    requires s.Wf()
    ensures r.0.Wf() && r.1 == Rebooted
  {
    var t := s.(rat := s.rat[ERR_INDEX := 1]);
    (WriteBytes(faulty, t, 0, t.rat).0, Rebooted)
  }

  /** `get_read_addr` (firmware/source/eeprom.c:203-247). */
  function GetReadAddr(faulty: nat -> bool, s: Store): (r: (Store, Outcome<uint16>))
    requires s.Wf()
    ensures r.0.Wf()
    ensures r.1.Rebooted? <==> ReadAddr(s.Groups()).None?
    ensures r.1.Returned? ==> r.0 == s
  {
    match ReadAddr(s.Groups())
    case Some(a) => (s, Returned(a))
    case None => MarkCorrupt(faulty, s)
  }

  /** `allocate_write_addr` (firmware/source/eeprom.c:252-350). */
  function AllocateWriteAddr(faulty: nat -> bool, s: Store): (r: (Store, Outcome<uint16>))
    requires s.Wf()
    ensures r.0.Wf()
    ensures r.1.Rebooted? <==> Allocate(s.Groups()).Corrupt?
    ensures Allocate(s.Groups()).Advance? ==>
      r.1 == Returned(Allocate(s.Groups()).addr) || r.1 == Returned(ALLOCATE_FAILED)
  {
    match Allocate(s.Groups())
    case Corrupt => MarkCorrupt(faulty, s)
    case Advance(table, addr) =>
      var t := s.(rat := table + [s.rat[ERR_INDEX]]);
      var (u, n) := WriteBytes(faulty, t, 0, t.rat);
      (u, Returned(if n < 0 then ALLOCATE_FAILED else addr))
    case Wrap =>
      var (f, _) := Format(faulty, s);
      var t := f.(rat := f.rat[0 := 0xFC]);
      var (u, n) := WriteBytes(faulty, t, 0, t.rat);
      (u, Returned(if n < 0 then ALLOCATE_FAILED else RECORD_SIZE as uint16))
  }

  /** `eeprom_write_record` (firmware/source/eeprom.c:393-397): the record's bytes
      go to whatever address the allocation returned, unchecked. */
  function WriteRecord(faulty: nat -> bool, s: Store, rec: seq<byte>): (r: (Store, Outcome<()>))
    requires s.Wf() && |rec| == CONFIG_RECORD_SIZE
    ensures r.0.Wf()
    ensures r.1.Rebooted? <==> Allocate(s.Groups()).Corrupt?
  {
    match AllocateWriteAddr(faulty, s)
    case (t, Rebooted) => (t, Rebooted)
    case (t, Returned(a)) => (WriteBytes(faulty, t, a, rec).0, Returned(()))
  }

  /** `eeprom_read_record` (firmware/source/eeprom.c:384-388) into the caller's buffer. */
  function ReadRecord(faulty: nat -> bool, s: Store, buf: seq<byte>): (r: (Store, seq<byte>, Outcome<()>))
    requires s.Wf() && |buf| == CONFIG_RECORD_SIZE
    ensures r.0.Wf() && |r.1| == CONFIG_RECORD_SIZE
    ensures r.2.Rebooted? <==> ReadAddr(s.Groups()).None?
  {
    match GetReadAddr(faulty, s)
    case (t, Rebooted) => (t, buf, Rebooted)
    case (t, Returned(a)) =>
      var (u, b, _) := ReadBytes(faulty, t, a, buf, CONFIG_RECORD_SIZE);
      (u, b, Returned(()))
  }

  /** Whether `eeprom_init` reformats, given the table it read: when the
      table's own slot is not marked taken (bit 0 of group 0 still set) or
      the corruption flag is set. */
  predicate NeedsFormat(rat: seq<byte>)
    requires |rat| == RAT_SIZE
    ensures NeedsFormat(rat) <==> rat[0] % 2 == 1 || rat[ERR_INDEX] != 0
  {
    AndLowBit(rat[0]);
    And(rat[0], 0x01) != 0 || rat[ERR_INDEX] != 0
  }

  /** `eeprom_init` (firmware/source/eeprom.c:355-379). */
  function Init(faulty: nat -> bool, s: Store): (r: (Store, Outcome<()>))
    requires s.Wf()
    ensures r.0.Wf()
  {
    var (t, table, n) := ReadBytes(faulty, s, 0, s.rat, RAT_SIZE as byte);
    var u := t.(rat := table);
    if n < 0 then (u, Rebooted)
    else if NeedsFormat(u.rat) then
      var (f, _) := Format(faulty, u);
      WriteRecord(faulty, f, Serialize(DefaultRecord()))
    else (u, Returned(()))
  }
}
