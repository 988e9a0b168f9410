/** The Record Allocation Table as a value (firmware/source/eeprom.c:7-10,
    203-350): sixteen group bytes, each counting how many of its eight slots
    are taken as a run of cleared bits from the least significant end. */
module Rat {
  import opened Bytes
  import opened Optional
  import opened Record

  const GROUP_COUNT: nat := 16
  const SLOTS_PER_GROUP: nat := 8
  const SLOT_COUNT: nat := GROUP_COUNT * SLOTS_PER_GROUP

  /** `sizeof(struct record_allocation_table)`: the groups, then the `err` byte. */
  const RAT_SIZE: nat := GROUP_COUNT + 1
  const ERR_INDEX: nat := GROUP_COUNT

  /** The nine legal group bytes; `Patterns[k]` says k slots of the group are taken. */
  const Patterns: seq<byte> := [0xFF, 0xFE, 0xFC, 0xF8, 0xF0, 0xE0, 0xC0, 0x80, 0x00]

  function Pattern(k: nat): byte
    requires k <= SLOTS_PER_GROUP
  {
    Patterns[k]
  }

  /** Decodes one group byte: how many of its slots are taken, None for an illegal byte. */
  function SlotsUsed(b: byte): (r: Option<nat>)
    ensures r.Some? <==> b in Patterns
    ensures r.Some? ==> r.value <= SLOTS_PER_GROUP && Pattern(r.value) == b
    ensures r.Some? && b != 0 ==> r.value < SLOTS_PER_GROUP
  {
    match b
    case 0xFF => Some(0)
    case 0xFE => Some(1)
    case 0xFC => Some(2)
    case 0xF8 => Some(3)
    case 0xF0 => Some(4)
    case 0xE0 => Some(5)
    case 0xC0 => Some(6)
    case 0x80 => Some(7)
    case 0x00 => Some(8)
    case _ => None
  }

  /** Index of the first group that still has a free slot; |bm| when every group is used up. */
  function FirstOpen(bm: seq<byte>): (g: nat)
    ensures g <= |bm|
    ensures forall i :: 0 <= i < g ==> bm[i] == 0
    ensures g < |bm| ==> bm[g] != 0
  {
    if bm == [] then 0
    else if bm[0] != 0 then 0
    else 1 + FirstOpen(bm[1..])
  }

  /** The first-open index is pinned down by the groups around it. */
  lemma FirstOpenIs(bm: seq<byte>, g: nat)
    requires g <= |bm|
    requires forall i :: 0 <= i < g ==> bm[i] == 0
    requires g < |bm| ==> bm[g] != 0
    ensures FirstOpen(bm) == g
  {
  }

  /** The number of slots the table says are taken, counting from slot 0,
      or None when the scan reaches an illegal group byte. */
  function Decode(bm: seq<byte>): (r: Option<nat>)
    requires |bm| == GROUP_COUNT
    ensures r.Some? ==> r.value <= SLOT_COUNT
    ensures r.None? <==> FirstOpen(bm) < GROUP_COUNT && bm[FirstOpen(bm)] !in Patterns
  {
    var g := FirstOpen(bm);
    if g == GROUP_COUNT then Some(SLOT_COUNT)
    else match SlotsUsed(bm[g])
      case None => None
      case Some(k) => Some(SLOTS_PER_GROUP * g + k)
  }

  function Clamp(x: int): (r: nat)
    ensures r <= SLOTS_PER_GROUP
  {
    if x < 0 then 0 else if x > SLOTS_PER_GROUP as int then SLOTS_PER_GROUP else x
  }

  /** The table in which exactly slots 0 .. n-1 are taken. */
  function Table(n: nat): (bm: seq<byte>)
    requires n <= SLOT_COUNT
    ensures |bm| == GROUP_COUNT
  {
    seq(GROUP_COUNT, i requires 0 <= i < GROUP_COUNT => Pattern(Clamp(n - SLOTS_PER_GROUP * i)))
  }

  /** The address `get_read_addr` computes, as a `uint16_t`; None when it takes
      the corruption path (firmware/source/eeprom.c:203-247). */
  function ReadAddr(bm: seq<byte>): (r: Option<uint16>)
    requires |bm| == GROUP_COUNT
    ensures r.None? <==> Decode(bm).None?
    ensures r.Some? && Decode(bm).value > 0 ==> r.value == (Decode(bm).value - 1) * RECORD_SIZE
  {
    match Decode(bm)
    case None => None
    case Some(n) => Some(ToUint16((n - 1) * RECORD_SIZE))
  }

  /** What `allocate_write_addr` decides from the table (firmware/source/eeprom.c:252-350). */
  datatype Allocation =
    | Corrupt                                  // illegal group byte: flag, persist, reboot
    | Wrap                                     // every group used: reformat
    | Advance(table: seq<byte>, addr: uint16)  // next table and the slot address returned

  function Allocate(bm: seq<byte>): (r: Allocation)
    requires |bm| == GROUP_COUNT
    ensures r.Corrupt? <==> Decode(bm).None?
    ensures r.Wrap? <==> Decode(bm) == Some(SLOT_COUNT)
    ensures r.Advance? ==> |r.table| == GROUP_COUNT && r.addr == Decode(bm).value * RECORD_SIZE
  {
    var g := FirstOpen(bm);
    if g == GROUP_COUNT then Wrap
    else match SlotsUsed(bm[g])
      case None => Corrupt
      case Some(k) => Advance(bm[g := Pattern(k + 1)], (SLOTS_PER_GROUP * g + k) * RECORD_SIZE)
  }

  // ---------------------------------------------------------------------------
  // Properties

  lemma TablePatternAt(n: nat, i: nat)
    requires n <= SLOT_COUNT && i < GROUP_COUNT
    ensures Table(n)[i] == Pattern(Clamp(n - SLOTS_PER_GROUP * i))
  {
  }

  /** The table of n taken slots: used-up groups, then the partly used group,
      then untouched groups. */
  lemma TableShape(n: nat)
    requires n <= SLOT_COUNT
    ensures forall i :: 0 <= i < n / SLOTS_PER_GROUP ==> Table(n)[i] == 0
    ensures n / SLOTS_PER_GROUP < GROUP_COUNT ==>
              Table(n)[n / SLOTS_PER_GROUP] == Pattern(n % SLOTS_PER_GROUP)
    ensures forall i :: n / SLOTS_PER_GROUP < i < GROUP_COUNT ==> Table(n)[i] == 0xFF
  {
    var q, r := n / SLOTS_PER_GROUP, n % SLOTS_PER_GROUP;
    forall i | 0 <= i < q ensures Table(n)[i] == 0 {
      assert Clamp(n - SLOTS_PER_GROUP * i) == SLOTS_PER_GROUP;
    }
    if q < GROUP_COUNT {
      assert Clamp(n - SLOTS_PER_GROUP * q) == r;
    }
    forall i | q < i < GROUP_COUNT ensures Table(n)[i] == 0xFF {
      assert Clamp(n - SLOTS_PER_GROUP * i) == 0;
    }
  }

  lemma FirstOpenTable(n: nat)
    requires n <= SLOT_COUNT
    ensures FirstOpen(Table(n)) == n / SLOTS_PER_GROUP
  {
    TableShape(n);
    FirstOpenIs(Table(n), n / SLOTS_PER_GROUP);
  }

  /** Decoding the table of n taken slots gives n back. */
  lemma DecodeTable(n: nat)
    requires n <= SLOT_COUNT
    ensures Decode(Table(n)) == Some(n)
  {
    FirstOpenTable(n);
    TableShape(n);
    var q, r := n / SLOTS_PER_GROUP, n % SLOTS_PER_GROUP;
    assert n == SLOTS_PER_GROUP * q + r;
    if q < GROUP_COUNT {
      SlotsUsedPattern(r);
    }
  }

  /** A table the store itself produces is never taken for corrupt. */
  lemma TableNotCorrupt(n: nat)
    requires n <= SLOT_COUNT
    ensures ReadAddr(Table(n)).Some?
    ensures !Allocate(Table(n)).Corrupt?
  {
    DecodeTable(n);
  }

  /** The two lookups agree on corruption, and it is exactly an illegal byte in
      the first group that is not used up. */
  lemma CorruptionDetected(bm: seq<byte>)
    requires |bm| == GROUP_COUNT
    ensures ReadAddr(bm).None? <==> Allocate(bm).Corrupt?
    ensures Allocate(bm).Corrupt? <==>
              FirstOpen(bm) < GROUP_COUNT && bm[FirstOpen(bm)] !in Patterns
  {
  }

  /** Only the scanned group is checked: an illegal byte behind it goes unnoticed. */
  lemma CorruptionBehindScanUndetected()
    ensures Table(1)[5 := 0x7F] != Table(1)
    ensures ReadAddr(Table(1)[5 := 0x7F]) == Some(0)
    ensures Allocate(Table(1)[5 := 0x7F]).Advance?
  {
    var bm := Table(1)[5 := 0x7F];
    assert Table(1)[5] == 0xFF;
    assert bm[0] == 0xFE;
    FirstOpenIs(bm, 0);
  }

  /** Taking slot n changes only the group that holds it, to the next pattern. */
  lemma TableStep(n: nat)
    requires n < SLOT_COUNT
    ensures Table(n)[n / SLOTS_PER_GROUP := Pattern(n % SLOTS_PER_GROUP + 1)] == Table(n + 1)
  {
    var q, r := n / SLOTS_PER_GROUP, n % SLOTS_PER_GROUP;
    var next := Table(n)[q := Pattern(r + 1)];
    forall i | 0 <= i < GROUP_COUNT ensures next[i] == Table(n + 1)[i] {
      if i < q {
        assert Clamp(n + 1 - SLOTS_PER_GROUP * i) == SLOTS_PER_GROUP;
        assert Clamp(n - SLOTS_PER_GROUP * i) == SLOTS_PER_GROUP;
      } else if i == q {
        assert Clamp(n + 1 - SLOTS_PER_GROUP * i) == r + 1;
      } else {
        assert Clamp(n - SLOTS_PER_GROUP * i) == 0 == Clamp(n + 1 - SLOTS_PER_GROUP * i);
      }
    }
  }

  /** Allocating from the table of n taken slots hands out slot n and takes it;
      with all 128 taken it wraps. */
  lemma AllocateTable(n: nat)
    requires n <= SLOT_COUNT
    ensures n < SLOT_COUNT ==> Allocate(Table(n)) == Advance(Table(n + 1), n * RECORD_SIZE)
    ensures n == SLOT_COUNT ==> Allocate(Table(n)) == Wrap
  {
    FirstOpenTable(n);
    TableShape(n);
    if n < SLOT_COUNT {
      var q, r := n / SLOTS_PER_GROUP, n % SLOTS_PER_GROUP;
      assert n == SLOTS_PER_GROUP * q + r && q < GROUP_COUNT;
      SlotsUsedPattern(r);
      assert SlotsUsed(Table(n)[q]) == Some(r);
      TableStep(n);
    }
  }

  /** Each legal group byte decodes to the count it encodes. */
  lemma SlotsUsedPattern(k: nat)
    requires k <= SLOTS_PER_GROUP
    ensures SlotsUsed(Pattern(k)) == Some(k)
  {
  }

  /** The address read back from the table of n taken slots is that of slot n-1,
      reduced to 16 bits: slot 127 for a full table, and the underflow
      (8*0 - 1) * 32 = 0xFFE0 for the empty one. */
  lemma ReadTable(n: nat)
    requires n <= SLOT_COUNT
    ensures ReadAddr(Table(n)) == Some(if n == 0 then 0xFFE0 else (n - 1) * RECORD_SIZE)
  {
    DecodeTable(n);
  }

  /** Round trip: once an allocation advanced the table, the read lookup
      returns the very address the allocation handed out. This covers a
      group becoming 0x00 (the next group, still 0xFF, decodes to slot 8g-1)
      and the last slot (every group 0x00 decodes to slot 127). */
  lemma ReadAfterAllocate(n: nat)
    requires n <= SLOT_COUNT
    ensures Allocate(Table(n)).Advance? ==>
              ReadAddr(Allocate(Table(n)).table) == Some(Allocate(Table(n)).addr)
  {
    AllocateTable(n);
    if n < SLOT_COUNT {
      ReadTable(n + 1);
    }
  }

  /** Every allocation clears exactly one bit of one group and leaves every
      other group alone, so programming the new table over the old one in
      flash (which can only clear bits) stores exactly the new table. */
  lemma AllocateClearsOneBit(n: nat)
    requires n < SLOT_COUNT
    ensures var g := n / SLOTS_PER_GROUP;
      && (forall i :: 0 <= i < GROUP_COUNT && i != g ==> Table(n + 1)[i] == Table(n)[i])
      && Table(n)[g] - Table(n + 1)[g] == PowerOfTwo(n % SLOTS_PER_GROUP)
      && (forall i :: 0 <= i < GROUP_COUNT ==> And(Table(n)[i], Table(n + 1)[i]) == Table(n + 1)[i])
  {
    var g, r := n / SLOTS_PER_GROUP, n % SLOTS_PER_GROUP;
    TableShape(n);
    TableStep(n);
    PatternStep(r);
    forall i | 0 <= i < GROUP_COUNT ensures And(Table(n)[i], Table(n + 1)[i]) == Table(n + 1)[i] {
      if i != g {
        AndIdempotent(Table(n)[i]);
      }
    }
  }

  function PowerOfTwo(k: nat): (r: nat)
    ensures r >= 1
  {
    if k == 0 then 1 else 2 * PowerOfTwo(k - 1)
  }

  /** Going from k to k+1 taken slots clears bit k and nothing else. */
  lemma PatternStep(k: nat)
    requires k < SLOTS_PER_GROUP
    ensures Pattern(k) - Pattern(k + 1) == PowerOfTwo(k)
    ensures And(Pattern(k), Pattern(k + 1)) == Pattern(k + 1)
  {
    PatternsArePowers();
    RunBits(SLOTS_PER_GROUP, k);
    assert PowerOfTwo(k + 1) == 2 * PowerOfTwo(k);
    AndClearsLowestOne(Pattern(k), Pattern(k + 1));
  }

  /** The group byte with k slots taken has the bits from k to 7 set. */
  lemma PatternsArePowers()
    ensures PowerOfTwo(SLOTS_PER_GROUP) == BYTE_MOD
    ensures forall k :: 0 <= k <= SLOTS_PER_GROUP ==> Patterns[k] == BYTE_MOD - PowerOfTwo(k)
  {
    assert PowerOfTwo(0) == 1 && PowerOfTwo(1) == 2 && PowerOfTwo(2) == 4 && PowerOfTwo(3) == 8;
    assert PowerOfTwo(4) == 16 && PowerOfTwo(5) == 32 && PowerOfTwo(6) == 64 && PowerOfTwo(7) == 128;
    assert PowerOfTwo(8) == 256;
  }

  /** `b` is `a` with its lowest one bit cleared, where the one bits of `a`
      form a single run: `a` is a run of low ones shifted left. */
  predicate ClearsLowestOfRun(a: byte, b: byte)
  {
    if a == 0 then false
    else if a % 2 == 0 then b % 2 == 0 && ClearsLowestOfRun(a / 2, b / 2)
    else LowOnes(a) && b == a - 1
  }

  /** The byte with bits k to j - 1 set, and the same byte without bit k. */
  lemma {:induction false} RunBits(j: nat, k: nat)
    requires k < j && PowerOfTwo(j) <= BYTE_MOD
    ensures 2 * PowerOfTwo(k) <= PowerOfTwo(j)
    ensures ClearsLowestOfRun(PowerOfTwo(j) - PowerOfTwo(k), PowerOfTwo(j) - 2 * PowerOfTwo(k))
    decreases k
  {
    if k == 0 {
      LowOnesBelow(j);
    } else {
      RunBits(j - 1, k - 1);
    }
  }

  /** 2^j - 1 is a run of j low one bits. */
  lemma {:induction false} LowOnesBelow(j: nat)
    requires PowerOfTwo(j) <= BYTE_MOD
    ensures LowOnes(PowerOfTwo(j) - 1)
  {
    if j > 0 {
      LowOnesBelow(j - 1);
    }
  }

  /** Clearing the lowest one bit of a run only clears bits, so the AND of the
      two bytes is the smaller one. */
  lemma {:induction false} AndClearsLowestOne(a: byte, b: byte)
    requires ClearsLowestOfRun(a, b)
    ensures And(a, b) == b
  {
    if a % 2 == 0 {
      AndClearsLowestOne(a / 2, b / 2);
      AndShifted(a / 2, b / 2);
    } else {
      AndLowOnes(a, b);
    }
  }

  lemma AndShifted(a: byte, b: byte)
    requires 2 * a < BYTE_MOD && 2 * b < BYTE_MOD && And(a, b) == b
    ensures And(2 * a, 2 * b) == 2 * b
  {
    AndDouble(a, b);
  }

}
