/** The persisted configuration record and the record slot size
    (firmware/include/eeprom.h). */
module Record {
  import opened Bytes

  /** Size of one flash slot; every record is stored at a multiple of it. */
  const RECORD_SIZE: nat := 32

  /** Number of entries of the duty-cycle map. */
  const PWM_MAP_LEN: nat := 20

  /** `sizeof(struct config_record)`: 20 map bytes and two 32-bit speeds, no padding. */
  const CONFIG_RECORD_SIZE: nat := PWM_MAP_LEN + 4 + 4

  /** `struct config_record`. */
  datatype ConfigRecord = ConfigRecord(pwmMap: seq<byte>, sourceFullSpeed: uint32, targetFullSpeed: uint32)
  {
    predicate Valid()
    {
      |pwmMap| == PWM_MAP_LEN
    }
  }

  /** The record's in-memory image, as the store copies it byte by byte:
      the map, then each speed least significant byte first. */
  function Serialize(r: ConfigRecord): (b: seq<byte>)
    requires r.Valid()
    ensures |b| == CONFIG_RECORD_SIZE < RECORD_SIZE
    ensures b[..PWM_MAP_LEN] == r.pwmMap
    ensures b[PWM_MAP_LEN..PWM_MAP_LEN + 4] == LE32(r.sourceFullSpeed)
    ensures b[PWM_MAP_LEN + 4..] == LE32(r.targetFullSpeed)
  {
    r.pwmMap + LE32(r.sourceFullSpeed) + LE32(r.targetFullSpeed)
  }

  /** Reinterprets 28 bytes as a record. */
  function Parse(b: seq<byte>): (r: ConfigRecord)
    requires |b| == CONFIG_RECORD_SIZE
    ensures r.Valid()
  {
    ConfigRecord(b[..PWM_MAP_LEN], FromLE32(b[PWM_MAP_LEN..PWM_MAP_LEN + 4]), FromLE32(b[PWM_MAP_LEN + 4..]))
  }

  lemma ParseSerialize(r: ConfigRecord)
    requires r.Valid()
    ensures Parse(Serialize(r)) == r
  {
    LE32RoundTrip(r.sourceFullSpeed);
    LE32RoundTrip(r.targetFullSpeed);
  }

  lemma SerializeParse(b: seq<byte>)
    requires |b| == CONFIG_RECORD_SIZE
    ensures Serialize(Parse(b)) == b
  {
    var s := b[PWM_MAP_LEN..PWM_MAP_LEN + 4];
    var t := b[PWM_MAP_LEN + 4..];
    FromLE32RoundTrip(s);
    FromLE32RoundTrip(t);
    assert b == b[..PWM_MAP_LEN] + s + t;
  }

  /** The record `eeprom_init` writes after formatting: every map entry 100,
      both full speeds 1000. */
  function DefaultRecord(): (r: ConfigRecord)
    ensures r.Valid()
    ensures forall i :: 0 <= i < PWM_MAP_LEN ==> r.pwmMap[i] == 100
    ensures r.sourceFullSpeed == 1000 && r.targetFullSpeed == 1000
  {
    ConfigRecord(seq(PWM_MAP_LEN, _ => 100), 1000, 1000)
  }
}
