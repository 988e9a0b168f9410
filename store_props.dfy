/** What the record store guarantees (firmware/source/eeprom.c), proved on
    the state-transformer model of StoreSpec. */
module StoreProps {
  import opened Bytes
  import opened Optional
  import opened Record
  import opened Rat
  import opened StoreSpec

  // ---------------------------------------------------------------------------
  // Byte store

  /** A multi-byte write reports success exactly when every byte command went
      through; bytes outside the target range are never touched. */
  lemma WriteBytesResult(faulty: nat -> bool, s: Store, addr: uint16, data: seq<byte>)
    requires s.Wf() && 0 < |data| < 0x80
    ensures var (t, n) := WriteBytes(faulty, s, addr, data);
      && (n == |data| <==> NoFaults(faulty, s.ops, |data|) && addr + |data| <= FLASH_SIZE)
      && (n != |data| ==> n == -1)
      && (forall a :: 0 <= a < FLASH_SIZE && !(addr <= a < addr + |data|) ==> t.flash[a] == s.flash[a])
  {
    var k := Completed(faulty, s.ops, addr, |data|);
    if NoFaults(faulty, s.ops, |data|) && addr + |data| <= FLASH_SIZE {
      CompletedNoFaults(faulty, s.ops, addr, |data|);
    }
  }

  /** Writing into erased flash without a fault stores exactly the data. */
  lemma WriteOntoErased(faulty: nat -> bool, s: Store, addr: uint16, data: seq<byte>)
    requires s.Wf() && |data| < 0x80 && addr + |data| <= FLASH_SIZE
    requires NoFaults(faulty, s.ops, |data|)
    requires forall a :: addr <= a < addr + |data| ==> s.flash[a] == ERASED
    ensures var (t, n) := WriteBytes(faulty, s, addr, data);
      && n == |data| && t.ops == s.ops + |data|
      && t.flash[addr..addr + |data|] == data
      && (forall a :: 0 <= a < FLASH_SIZE && !(addr <= a < addr + |data|) ==> t.flash[a] == s.flash[a])
  {
    CompletedNoFaults(faulty, s.ops, addr, |data|);
    var t := WriteBytes(faulty, s, addr, data).0;
    forall i | 0 <= i < |data| ensures t.flash[addr + i] == data[i] {
      assert t.flash[addr + i] == And(ERASED, data[i]);
      AndAllOnes(data[i]);
    }
  }

  /** Reading without a fault copies the flash bytes into the buffer. */
  lemma ReadBack(faulty: nat -> bool, s: Store, addr: uint16, dst: seq<byte>, size: byte)
    requires s.Wf() && size < 0x80 && size <= |dst| && addr + size <= FLASH_SIZE
    requires NoFaults(faulty, s.ops, size)
    ensures var (t, b, n) := ReadBytes(faulty, s, addr, dst, size);
      && n == size && t == s.(ops := s.ops + size)
      && b[..size] == s.flash[addr..addr + size] && b[size..] == dst[size..]
  {
    CompletedNoFaults(faulty, s.ops, addr, size);
  }

  /** A write to the address a failed allocation returns (0xFFFF) fails at its
      first byte and leaves the flash as it was. */
  lemma WriteToFailedAddress(faulty: nat -> bool, s: Store, data: seq<byte>)
    requires s.Wf() && 0 < |data| < BYTE_MOD
    ensures WriteBytes(faulty, s, ALLOCATE_FAILED, data).0.flash == s.flash
    ensures WriteBytes(faulty, s, ALLOCATE_FAILED, data).1 == -1
  {
    var t := WriteBytes(faulty, s, ALLOCATE_FAILED, data).0;
    assert Completed(faulty, s.ops, ALLOCATE_FAILED, |data|) == 0;
    assert t.flash == s.flash;
  }

  // ---------------------------------------------------------------------------
  // The health invariant

  /** The RAM table is the table of n taken slots and flash holds the same bytes. */
  ghost predicate InSync(s: Store, n: nat)
  {
    && s.Wf() && 1 <= n <= SLOT_COUNT
    && s.rat == Table(n) + [s.rat[ERR_INDEX]]
    && s.flash[..RAT_SIZE] == s.rat
  }

  ghost predicate ErasedFrom(s: Store, a: nat)
    requires s.Wf()
  {
    forall x :: a <= x < FLASH_SIZE ==> s.flash[x] == ERASED
  }

  /** Slots 1 .. n-1 may hold records; every slot from n on is still erased. */
  ghost predicate Healthy(s: Store, n: nat)
  {
    InSync(s, n) && ErasedFrom(s, n * RECORD_SIZE)
  }

  /** Table count after one fault-free allocation from count n. */
  function NextCount(n: nat): (c: nat)
    requires n <= SLOT_COUNT
    ensures 1 <= c <= SLOT_COUNT
  {
    if n < SLOT_COUNT then n + 1 else 2
  }

  /** Address one fault-free allocation from count n returns. */
  function NextAddr(n: nat): (a: uint16)
    requires n <= SLOT_COUNT
    ensures a == (NextCount(n) - 1) * RECORD_SIZE
  {
    if n < SLOT_COUNT then n * RECORD_SIZE else RECORD_SIZE
  }

  /** Most controller commands one allocation can issue: 8 erases and two table writes. */
  const ALLOCATE_OPS: nat := PAGE_COUNT + 2 * RAT_SIZE

  lemma TableOne()
    ensures Table(1) == [0xFE] + seq(GROUP_COUNT - 1, _ => 0xFF)
  {
    TableShape(1);
  }

  /** A format without faults erases every page, then stores [0xFE, 0xFF x 15]
      with err = 0 at address 0 and in RAM: one slot, the table's own, is taken. */
  lemma {:induction false} FormatHealthy(faulty: nat -> bool, s: Store)
    requires s.Wf() && NoFaults(faulty, s.ops, PAGE_COUNT + RAT_SIZE)
    ensures var (t, n) := Format(faulty, s);
      && n == 0 && t.ops == s.ops + PAGE_COUNT + RAT_SIZE
      && t.rat == FormattedRat() && Healthy(t, 1)
  {
    assert Leading(faulty, s.ops, PAGE_COUNT) == PAGE_COUNT;
    var erased := Store(ErasePages(s.flash, PAGE_COUNT), FormattedRat(), s.ops + PAGE_COUNT);
    WriteOntoErased(faulty, erased, 0, erased.rat);
    var t := Format(faulty, s).0;
    assert t == WriteBytes(faulty, erased, 0, erased.rat).0;
    assert t.flash[..RAT_SIZE] == FormattedRat();
  }

  /** A format that fails at an erase leaves the RAM table alone and returns -1. */
  lemma FormatEraseFailure(faulty: nat -> bool, s: Store)
    requires s.Wf() && Leading(faulty, s.ops, PAGE_COUNT) < PAGE_COUNT
    ensures var (t, n) := Format(faulty, s);
      && n == -1 && t.rat == s.rat
      && (forall a :: 0 <= a < FLASH_SIZE ==>
            t.flash[a] == if a < Leading(faulty, s.ops, PAGE_COUNT) * PAGE_SIZE then ERASED else s.flash[a])
  {
  }

  /** Programming the advanced table over the stored one stores the advanced table. */
  lemma ProgramNextTable(mem: seq<byte>, n: nat, err: byte)
    requires |mem| == FLASH_SIZE && n < SLOT_COUNT
    requires mem[..RAT_SIZE] == Table(n) + [err]
    ensures Program(mem, 0, Table(n + 1) + [err], RAT_SIZE)[..RAT_SIZE] == Table(n + 1) + [err]
  {
    AllocateClearsOneBit(n);
    AndIdempotent(err);
    var cur, next := Table(n) + [err], Table(n + 1) + [err];
    forall i | 0 <= i < RAT_SIZE ensures And(cur[i], next[i]) == next[i] {
      if i == ERR_INDEX {
        assert cur[i] == err && next[i] == err;
      } else {
        assert cur[i] == Table(n)[i] && next[i] == Table(n + 1)[i];
      }
    }
    ProgramOverSubmask(mem, cur, next);
  }

  /** Programming bytes that only clear bits of what flash holds stores them. */
  lemma ProgramOverSubmask(mem: seq<byte>, cur: seq<byte>, next: seq<byte>)
    requires |cur| == |next| <= |mem| && mem[..|cur|] == cur
    requires forall i :: 0 <= i < |cur| ==> And(cur[i], next[i]) == next[i]
    ensures Program(mem, 0, next, |next|)[..|next|] == next
  {
    var p := Program(mem, 0, next, |next|);
    forall a | 0 <= a < |next| ensures p[a] == next[a] {
      assert mem[a] == cur[a];
    }
  }

  /** Writing the advanced table of a healthy store without a fault: the
      store is in sync with one more slot taken and nothing else changed. */
  lemma StoreNextTable(faulty: nat -> bool, s: Store, n: nat)
    requires Healthy(s, n) && n < SLOT_COUNT && NoFaults(faulty, s.ops, RAT_SIZE)
    ensures var u := s.(rat := Table(n + 1) + [s.rat[ERR_INDEX]]);
      var (t, k) := WriteBytes(faulty, u, 0, u.rat);
      && k == RAT_SIZE && t.ops == s.ops + RAT_SIZE
      && InSync(t, n + 1) && ErasedFrom(t, n * RECORD_SIZE)
  {
    var u := s.(rat := Table(n + 1) + [s.rat[ERR_INDEX]]);
    CompletedNoFaults(faulty, s.ops, 0, RAT_SIZE);
    ProgramNextTable(s.flash, n, s.rat[ERR_INDEX]);
    var t := WriteBytes(faulty, u, 0, u.rat).0;
    assert t.flash == Program(s.flash, 0, u.rat, RAT_SIZE);
    assert t.flash[..RAT_SIZE] == u.rat;
    forall x | n * RECORD_SIZE <= x < FLASH_SIZE ensures t.flash[x] == ERASED {
    }
  }

  /** The table write that follows the format when every slot was taken. */
  lemma StoreTableAfterFormat(faulty: nat -> bool, f: Store)
    requires Healthy(f, 1) && f.rat == FormattedRat() && NoFaults(faulty, f.ops, RAT_SIZE)
    ensures var u := f.(rat := f.rat[0 := 0xFC]);
      var (t, k) := WriteBytes(faulty, u, 0, u.rat);
      && k == RAT_SIZE && t.ops == f.ops + RAT_SIZE
      && InSync(t, 2) && ErasedFrom(t, RECORD_SIZE)
  {
    TableStep(1);
    TableShape(1);
    assert f.rat[0 := 0xFC] == Table(2) + [0];
    StoreNextTable(faulty, f, 1);
  }

  /** A fault-free allocation in a healthy store hands out the next slot,
      which is still erased, and keeps the store healthy; with every slot
      taken it formats and hands out slot 1 again. */
  lemma AllocateHealthy(faulty: nat -> bool, s: Store, n: nat)
    requires Healthy(s, n) && NoFaults(faulty, s.ops, ALLOCATE_OPS)
    ensures var (t, r) := AllocateWriteAddr(faulty, s);
      && r == Returned(NextAddr(n))
      && InSync(t, NextCount(n)) && ErasedFrom(t, NextAddr(n))
      && s.ops < t.ops <= s.ops + ALLOCATE_OPS
  {
    AllocateTable(n);
    assert s.Groups() == Table(n);
    if n < SLOT_COUNT {
      StoreNextTable(faulty, s, n);
    } else {
      FormatHealthy(faulty, s);
      var f := Format(faulty, s).0;
      NoFaultsWithin(faulty, s.ops, ALLOCATE_OPS, f.ops, RAT_SIZE);
      StoreTableAfterFormat(faulty, f);
    }
  }

  /** Round trip of addresses: whatever the flash and the faults, once an
      allocation from the table of n taken slots returns, the read lookup
      yields the next slot's address; so does the allocation itself unless
      its table write failed, when it returns 0xFFFF although the RAM table
      has already advanced. */
  lemma ReadAfterAllocateStore(faulty: nat -> bool, s: Store, n: nat)
    requires s.Wf() && n <= SLOT_COUNT && s.Groups() == Table(n)
    ensures var (t, r) := AllocateWriteAddr(faulty, s);
      && (r == Returned(NextAddr(n)) || r == Returned(ALLOCATE_FAILED))
      && GetReadAddr(faulty, t) == (t, Returned(NextAddr(n)))
  {
    AllocateTable(n);
    var t := AllocateWriteAddr(faulty, s).0;
    if n < SLOT_COUNT {
      assert t.Groups() == Table(n + 1);
      ReadTable(n + 1);
    } else {
      ReadAfterWrap(faulty, s);
    }
    ReadFound(faulty, t, NextAddr(n));
  }

  /** A table that decodes makes the read lookup return its address and leave
      the store alone. */
  lemma ReadFound(faulty: nat -> bool, t: Store, a: uint16)
    requires t.Wf() && ReadAddr(t.Groups()) == Some(a)
    ensures GetReadAddr(faulty, t) == (t, Returned(a))
  {
  }

  /** The wrap case of `ReadAfterAllocateStore`: whether the format's erases
      went through or not, group 0 of the RAM table now reads 0xFC. */
  lemma ReadAfterWrap(faulty: nat -> bool, s: Store)
    requires s.Wf() && s.Groups() == Table(SLOT_COUNT)
    ensures var f := Format(faulty, s).0;
      var t := WriteBytes(faulty, f.(rat := f.rat[0 := 0xFC]), 0, f.rat[0 := 0xFC]).0;
      ReadAddr(t.Groups()) == Some(RECORD_SIZE as uint16)
  {
    var f := Format(faulty, s).0;
    var g := f.rat[0 := 0xFC][..GROUP_COUNT];
    if Leading(faulty, s.ops, PAGE_COUNT) < PAGE_COUNT {
      assert f.rat == s.rat;
      assert g[0] == 0xFC;
      FirstOpenIs(g, 0);
    } else {
      TableStep(1);
      TableShape(1);
      assert g == Table(2);
      ReadTable(2);
    }
  }

  /** A fault-free record write in a healthy store puts the record's bytes in
      the newly allocated slot and keeps the store healthy. */
  lemma {:induction false} WriteRecordHealthy(faulty: nat -> bool, s: Store, n: nat, rec: seq<byte>)
    requires Healthy(s, n) && |rec| == CONFIG_RECORD_SIZE
    requires NoFaults(faulty, s.ops, ALLOCATE_OPS + CONFIG_RECORD_SIZE)
    ensures var (t, r) := WriteRecord(faulty, s, rec);
      && r == Returned(()) && Healthy(t, NextCount(n))
      && t.flash[NextAddr(n)..NextAddr(n) + CONFIG_RECORD_SIZE] == rec
      && t.ops <= s.ops + ALLOCATE_OPS + CONFIG_RECORD_SIZE
  {
    AllocateHealthy(faulty, s, n);
    var u := AllocateWriteAddr(faulty, s).0;
    var a := NextAddr(n);
    assert NoFaults(faulty, u.ops, CONFIG_RECORD_SIZE);
    WriteOntoErased(faulty, u, a, rec);
    var t := WriteRecord(faulty, s, rec).0;
    assert t == WriteBytes(faulty, u, a, rec).0;
    assert t.flash[..RAT_SIZE] == u.flash[..RAT_SIZE];
    forall x | NextCount(n) * RECORD_SIZE <= x < FLASH_SIZE ensures t.flash[x] == ERASED {
    }
  }

  /** A fault-free read in a synchronised store copies the latest slot. */
  lemma ReadRecordInSync(faulty: nat -> bool, s: Store, n: nat, buf: seq<byte>)
    requires InSync(s, n) && |buf| == CONFIG_RECORD_SIZE
    requires NoFaults(faulty, s.ops, CONFIG_RECORD_SIZE)
    ensures var (t, b, r) := ReadRecord(faulty, s, buf);
      && r == Returned(()) && t == s.(ops := t.ops)
      && b == s.flash[(n - 1) * RECORD_SIZE..(n - 1) * RECORD_SIZE + CONFIG_RECORD_SIZE]
  {
    assert s.Groups() == Table(n);
    ReadTable(n);
    ReadBack(faulty, s, (n - 1) * RECORD_SIZE, buf, CONFIG_RECORD_SIZE);
  }

  /** Write a record, then read the record back: the same record, whether or
      not the write had to wrap the log. */
  lemma RecordRoundTrip(faulty: nat -> bool, s: Store, n: nat, rec: ConfigRecord, buf: seq<byte>)
    requires Healthy(s, n) && rec.Valid() && |buf| == CONFIG_RECORD_SIZE
    requires NoFaults(faulty, s.ops, ALLOCATE_OPS + 2 * CONFIG_RECORD_SIZE)
    ensures var t := WriteRecord(faulty, s, Serialize(rec)).0;
      var (_, b, r) := ReadRecord(faulty, t, buf);
      r == Returned(()) && Parse(b) == rec
  {
    var bytes := Serialize(rec);
    WriteRecordHealthy(faulty, s, n, bytes);
    var t := WriteRecord(faulty, s, bytes).0;
    assert NoFaults(faulty, t.ops, CONFIG_RECORD_SIZE);
    ReadRecordInSync(faulty, t, NextCount(n), buf);
    ParseSerialize(rec);
  }

  // ---------------------------------------------------------------------------
  // The allocation cycle

  /** Addresses m successive fault-free allocations return from table count n. */
  function Allocations(n: nat, m: nat): (r: seq<uint16>)
    requires n <= SLOT_COUNT
    ensures |r| == m
    decreases m
  {
    if m == 0 then [] else [NextAddr(n)] + Allocations(NextCount(n), m - 1)
  }

  /** Table count after m successive fault-free allocations from count n. */
  function CountAfter(n: nat, m: nat): (c: nat)
    requires n <= SLOT_COUNT
    ensures c <= SLOT_COUNT
    decreases m
  {
    if m == 0 then n else CountAfter(NextCount(n), m - 1)
  }

  /** Repeated fault-free allocations in a healthy store return exactly the
      addresses `Allocations` lists, and the store stays healthy. */
  lemma {:induction false} AllocationsHealthy(faulty: nat -> bool, s: Store, n: nat, m: nat)
    requires Healthy(s, n) && FaultFreeFrom(faulty, s.ops)
    ensures AllocateMany(faulty, s, m).1 == Allocations(n, m)
    ensures Healthy(AllocateMany(faulty, s, m).0, CountAfter(n, m))
    ensures s.ops <= AllocateMany(faulty, s, m).0.ops
    decreases m
  {
    if m > 0 {
      AllocationsHealthy(faulty, s, n, m - 1);
      var (u, addrs) := AllocateMany(faulty, s, m - 1);
      var c := CountAfter(n, m - 1);
      assert NoFaults(faulty, u.ops, ALLOCATE_OPS);
      AllocateHealthy(faulty, u, c);
      AllocateLast(faulty, s, m, u, addrs, NextAddr(c));
      var t := AllocateWriteAddr(faulty, u).0;
      ErasedFromLater(t, NextAddr(c), NextCount(c) * RECORD_SIZE);
      assert Healthy(t, NextCount(c));
      AllocationsSplit(n, m - 1, 1);
      assert Allocations(c, 1) == [NextAddr(c)] && CountAfter(c, 1) == NextCount(c);
      assert CountAfter(n, m) == NextCount(c);
    }
  }

  /** No controller command from number `from` on fails. */
  ghost predicate FaultFreeFrom(faulty: nat -> bool, from: nat)
  {
    forall j :: from <= j ==> !faulty(j)
  }

  /** The last of m allocations: it runs on the store the first m - 1 leave
      behind, and its address follows theirs. */
  lemma AllocateLast(faulty: nat -> bool, s: Store, m: nat, u: Store, addrs: seq<uint16>, a: uint16)
    requires s.Wf() && 0 < m && (u, addrs) == AllocateMany(faulty, s, m - 1)
    requires AllocateWriteAddr(faulty, u).1 == Returned(a)
    ensures AllocateMany(faulty, s, m) == (AllocateWriteAddr(faulty, u).0, addrs + [a])
  {
  }

  lemma ErasedFromLater(s: Store, a: nat, b: nat)
    requires s.Wf() && ErasedFrom(s, a) && a <= b
    ensures ErasedFrom(s, b)
  {
  }

  /** A fault-free run of commands is fault-free on every stretch inside it. */
  lemma NoFaultsWithin(faulty: nat -> bool, from: nat, count: nat, from': nat, count': nat)
    requires NoFaults(faulty, from, count)
    requires from <= from' && from' + count' <= from + count
    ensures NoFaults(faulty, from', count')
  {
  }

  /** m allocations in a row, collecting what each returned. */
  function AllocateMany(faulty: nat -> bool, s: Store, m: nat): (r: (Store, seq<uint16>))
    requires s.Wf()
    ensures r.0.Wf()
    decreases m
  {
    if m == 0 then (s, [])
    else
      var (t, addrs) := AllocateMany(faulty, s, m - 1);
      var (u, a) := AllocateWriteAddr(faulty, t);
      (u, addrs + [if a.Returned? then a.value else ALLOCATE_FAILED])
  }

  /** Before the table fills up, allocations hand out consecutive slots. */
  lemma {:induction false} AllocationsAscend(n: nat, m: nat)
    requires 1 <= n && n + m <= SLOT_COUNT
    ensures Allocations(n, m) == seq(m, i requires 0 <= i < m => (n + i) * RECORD_SIZE)
    ensures CountAfter(n, m) == n + m
    decreases m
  {
    if m > 0 {
      AllocationsAscend(n + 1, m - 1);
      var all, rest := Allocations(n, m), Allocations(n + 1, m - 1);
      assert NextCount(n) == n + 1 && NextAddr(n) == n * RECORD_SIZE;
      assert all == [n * RECORD_SIZE as uint16] + rest;
      forall i | 0 <= i < m ensures all[i] == (n + i) * RECORD_SIZE {
        if i > 0 {
          assert all[i] == rest[i - 1];
        }
      }
    }
  }

  lemma {:induction false} AllocationsSplit(n: nat, a: nat, b: nat)
    requires n <= SLOT_COUNT
    ensures Allocations(n, a + b) == Allocations(n, a) + Allocations(CountAfter(n, a), b)
    ensures CountAfter(n, a + b) == CountAfter(CountAfter(n, a), b)
    decreases a
  {
    if a > 0 {
      AllocationsSplit(NextCount(n), a - 1, b);
    }
  }

  /** From a fresh format (count 1) allocations return 32, 64, ..., 4064 and
      then wrap to 32 again. */
  lemma FreshCycle()
    ensures Allocations(1, SLOT_COUNT) ==
              seq(SLOT_COUNT - 1, i requires 0 <= i < SLOT_COUNT - 1 => (i + 1) * RECORD_SIZE) + [RECORD_SIZE as uint16]
  {
    AllocationsSplit(1, SLOT_COUNT - 1, 1);
    AllocationsAscend(1, SLOT_COUNT - 1);
  }

  /** After the first wrap the log cycles with period 127 (slot 0 holds the
      table): 127 allocations from any count 2..128 come back to it, wrapping
      exactly once on the way. */
  lemma WrapPeriod(n: nat)
    requires 2 <= n <= SLOT_COUNT
    ensures CountAfter(n, SLOT_COUNT - 1) == n
    ensures RECORD_SIZE in Allocations(n, SLOT_COUNT - 1)
    ensures multiset(Allocations(n, SLOT_COUNT - 1))[RECORD_SIZE as uint16] == 1
  {
    var a := SLOT_COUNT - n;
    AllocationsSplit(n, a, 1);
    AllocationsSplit(n, a + 1, SLOT_COUNT - 1 - a - 1);
    AllocationsAscend(n, a);
    AllocationsAscend(2, n - 2);
    assert CountAfter(SLOT_COUNT, 1) == 2;
    assert Allocations(SLOT_COUNT, 1) == [RECORD_SIZE as uint16];
    var first := Allocations(n, a);
    var last := Allocations(2, n - 2);
    assert RECORD_SIZE !in first;
    assert RECORD_SIZE !in last;
    assert Allocations(n, SLOT_COUNT - 1) == first + [RECORD_SIZE as uint16] + last;
  }

  // ---------------------------------------------------------------------------
  // Initialisation and corruption

  /** Whenever the table in flash asks for a format (bit 0 of group 0 set, or
      `err` set), a fault-free init formats, writes the default record into
      slot 1 and leaves a healthy store whose read lookup returns slot 1. */
  lemma {:induction false} InitFormats(faulty: nat -> bool, s: Store)
    requires s.Wf() && NeedsFormat(s.flash[..RAT_SIZE])
    requires NoFaults(faulty, s.ops, RAT_SIZE + PAGE_COUNT + RAT_SIZE + ALLOCATE_OPS + CONFIG_RECORD_SIZE)
    ensures var (t, r) := Init(faulty, s);
      && r == Returned(()) && Healthy(t, 2)
      && t.flash[RECORD_SIZE..RECORD_SIZE + CONFIG_RECORD_SIZE] == Serialize(DefaultRecord())
      && GetReadAddr(faulty, t).1 == Returned(RECORD_SIZE as uint16)
  {
    ReadBack(faulty, s, 0, s.rat, RAT_SIZE as byte);
    var (u0, table, _) := ReadBytes(faulty, s, 0, s.rat, RAT_SIZE as byte);
    var u := u0.(rat := table);
    assert table == s.flash[..RAT_SIZE];
    assert NeedsFormat(u.rat);
    FormatHealthy(faulty, u);
    var f := Format(faulty, u).0;
    WriteRecordHealthy(faulty, f, 1, Serialize(DefaultRecord()));
    var t := WriteRecord(faulty, f, Serialize(DefaultRecord())).0;
    assert t.Groups() == Table(2);
    ReadTable(2);
  }

  /** A blank (fully erased) chip asks for a format: init lands the default
      record in slot 1, and the read lookup returns slot 1 rather than the
      (8*0 - 1) * 32 underflow. */
  lemma InitBlankChip(faulty: nat -> bool, s: Store)
    requires s.Wf() && (forall a :: 0 <= a < FLASH_SIZE ==> s.flash[a] == ERASED)
    requires NoFaults(faulty, s.ops, RAT_SIZE + PAGE_COUNT + RAT_SIZE + ALLOCATE_OPS + CONFIG_RECORD_SIZE)
    ensures var (t, r) := Init(faulty, s);
      && r == Returned(()) && Healthy(t, 2)
      && t.flash[RECORD_SIZE..RECORD_SIZE + CONFIG_RECORD_SIZE] == Serialize(DefaultRecord())
      && GetReadAddr(faulty, t).1 == Returned(RECORD_SIZE as uint16)
  {
    AndAllOnes(0x01);
    assert s.flash[..RAT_SIZE][0] == ERASED;
    InitFormats(faulty, s);
  }

  /** A fault while reading the table ends init in a reboot, with the flash
      untouched. */
  lemma InitReadFailure(faulty: nat -> bool, s: Store)
    requires s.Wf() && !NoFaults(faulty, s.ops, RAT_SIZE)
    ensures Init(faulty, s).1 == Rebooted && Init(faulty, s).0.flash == s.flash
  {
    var k := Completed(faulty, s.ops, 0, RAT_SIZE);
    assert k < RAT_SIZE;
  }

  /** After a power cycle, init of a synchronised store with a clear `err`
      re-reads the same table into RAM and does not format. */
  lemma InitRestoresTable(faulty: nat -> bool, s: Store, n: nat)
    requires s.Wf() && 1 <= n <= SLOT_COUNT && s.flash[..RAT_SIZE] == Table(n) + [0]
    requires NoFaults(faulty, s.ops, RAT_SIZE)
    ensures var (t, r) := Init(faulty, s);
      && r == Returned(()) && InSync(t, n) && t.flash == s.flash
  {
    ReadBack(faulty, s, 0, s.rat, RAT_SIZE as byte);
    var (u0, table, _) := ReadBytes(faulty, s, 0, s.rat, RAT_SIZE as byte);
    assert table == Table(n) + [0];
    TableShape(n);
    assert Table(n)[0] == Pattern(Clamp(n)) && 1 <= Clamp(n);
    assert And(table[0], 0x01) == 0;
  }

  /** The corruption path cannot record itself: once a format stored err = 0,
      programming err = 1 over it leaves 0 in flash (a write only clears
      bits), so an init after the reboot sees err = 0 and does not format
      unless bit 0 of group 0 is set. */
  lemma CorruptionFlagNotPersisted(faulty: nat -> bool, s: Store)
    requires s.Wf() && ReadAddr(s.Groups()).None? && s.flash[ERR_INDEX] == 0
    ensures var (t, r) := GetReadAddr(faulty, s);
      && r == Rebooted && t.rat[ERR_INDEX] == 1 && t.flash[ERR_INDEX] == 0
      && (And(t.flash[0], 0x01) == 0 ==> !NeedsFormat(t.flash[..RAT_SIZE]))
  {
    var t := GetReadAddr(faulty, s).0;
    assert And(0, 1) == 0;
    assert t.flash[ERR_INDEX] == 0;
  }

  /** Allocation from the empty table (group 0 still 0xFF, only possible when
      a format failed) hands out address 0, the table's own slot. */
  lemma EmptyTableAllocatesTableSlot()
    ensures Allocate(Table(0)) == Advance(Table(1), 0)
    ensures ReadAddr(Table(0)) == Some(0xFFE0)
  {
    AllocateTable(0);
    ReadTable(0);
  }
}
