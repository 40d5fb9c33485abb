/**
 * `ItemData`: the record sent between clients and the host, built from a live
 * item and serialised field by field.
 */
module Objects {
  import opened Wrappers
  import opened Engine

  type byte = x: int | 0 <= x < 256

  /** Equality is structural over the four fields, as for a C# struct. */
  datatype ItemData = ItemData(
    id: int32,
    scrapValue: int32,
    saveData: int32,
    persistedThroughRounds: bool)

  /** The `ItemData(GrabbableObject)` constructor; fields it does not assign keep their default, 0. */
  function FromItem(item: GrabbableObject): (r: ItemData)
    ensures r.id == item.itemProperties.instanceId
    ensures r.scrapValue == if item.itemProperties.isScrap then item.scrapValue else 0
    ensures r.saveData == if item.itemProperties.saveItemVariable then item.dataToSave else 0
    ensures r.persistedThroughRounds == item.scrapPersistedThroughRounds
  {
    ItemData(
      item.itemProperties.instanceId,
      if item.itemProperties.isScrap then item.scrapValue else 0,
      if item.itemProperties.saveItemVariable then item.dataToSave else 0,
      item.scrapPersistedThroughRounds)
  }

  /** The id names the kind: two items with the same definition get the same id, whatever their instance state. */
  lemma SameKindSameId(a: GrabbableObject, b: GrabbableObject)
    requires a.itemProperties == b.itemProperties
    ensures FromItem(a).id == FromItem(b).id
  {
  }

  /**
   * Two items give equal records exactly when they agree on the definition's id,
   * on the scrap value where it is recorded, on the saved data where it is
   * recorded, and on the persistence flag.
   */
  lemma FromItemEqual(a: GrabbableObject, b: GrabbableObject)
    ensures FromItem(a) == FromItem(b) <==>
      a.itemProperties.instanceId == b.itemProperties.instanceId
      && (if a.itemProperties.isScrap then a.scrapValue else 0) == (if b.itemProperties.isScrap then b.scrapValue else 0)
      && (if a.itemProperties.saveItemVariable then a.dataToSave else 0) == (if b.itemProperties.saveItemVariable then b.dataToSave else 0)
      && a.scrapPersistedThroughRounds == b.scrapPersistedThroughRounds
  {
  }

  // ----- NetworkSerialize: ID, SCRAP_VALUE, SAVE_DATA, PERSISTED_THROUGH_ROUNDS, in that order -----

  /** Bytes of one serialised record: three 4-byte integers and a 1-byte boolean. */
  const RecordSize: nat := 13

  /** A 32-bit integer as 4 bytes of its two's complement, least significant first. */
  function EncodeInt32(x: int32): (r: seq<byte>)
    ensures |r| == 4
  {
    var u := if x < 0 then x + 0x1_0000_0000 else x;
    [u % 0x100, (u / 0x100) % 0x100, (u / 0x1_0000) % 0x100, u / 0x100_0000]
  }

  function DecodeInt32(b: seq<byte>): (r: int32)
    requires |b| == 4
  {
    var u: int := b[0] as int + 0x100 * (b[1] as int + 0x100 * (b[2] as int + 0x100 * b[3] as int));
    if u >= 0x8000_0000 then u - 0x1_0000_0000 else u
  }

  function EncodeBool(b: bool): (r: seq<byte>)
    ensures |r| == 1
  {
    [if b then 1 else 0]
  }

  /** A boolean byte reads back as true when it is non-zero. */
  function DecodeBool(b: byte): (r: bool) { b != 0 }

  lemma DecodeEncodeInt32(x: int32)
    ensures DecodeInt32(EncodeInt32(x)) == x
  {
    var u := if x < 0 then x + 0x1_0000_0000 else x;
    var b := EncodeInt32(x);
    assert u == b[0] + 0x100 * (u / 0x100);
    assert u / 0x100 == b[1] + 0x100 * (u / 0x1_0000);
    assert u / 0x1_0000 == b[2] + 0x100 * b[3];
  }

  lemma EncodeDecodeInt32(b: seq<byte>)
    requires |b| == 4
    ensures EncodeInt32(DecodeInt32(b)) == b
  {
    var u: int := b[0] as int + 0x100 * (b[1] as int + 0x100 * (b[2] as int + 0x100 * b[3] as int));
    var v: int := b[1] as int + 0x100 * (b[2] as int + 0x100 * b[3] as int);
    var w: int := b[2] as int + 0x100 * b[3] as int;
    assert u % 0x100 == b[0] && u / 0x100 == v;
    assert v % 0x100 == b[1] && v / 0x100 == w;
    assert w % 0x100 == b[2] && w / 0x100 == b[3];
    assert u / 0x1_0000 == w;
    assert u / 0x100_0000 == b[3];
    var e := EncodeInt32(DecodeInt32(b));
    assert e == [u % 0x100, (u / 0x100) % 0x100, (u / 0x1_0000) % 0x100, u / 0x100_0000];
  }

  /** `NetworkSerialize` writing: the fields in declaration order, 13 bytes in all. */
  function Encode(d: ItemData): (r: seq<byte>)
    ensures |r| == RecordSize
    ensures r[0..4] == EncodeInt32(d.id) && r[4..8] == EncodeInt32(d.scrapValue)
    ensures r[8..12] == EncodeInt32(d.saveData) && r[12] == (if d.persistedThroughRounds then 1 else 0)
  {
    EncodeInt32(d.id) + EncodeInt32(d.scrapValue) + EncodeInt32(d.saveData) + EncodeBool(d.persistedThroughRounds)
  }

  /**
   * `NetworkSerialize` reading: the same fields in the same order, from the front
   * of a buffer; the unread rest is returned. A buffer too short for a record is
   * a malformed message (the reader fails) and gives None.
   */
  function Decode(s: seq<byte>): (r: Option<(ItemData, seq<byte>)>)
    ensures r.None? <==> |s| < RecordSize
    ensures r.Some? ==> r.value.1 == s[RecordSize..]
  {
    if |s| < RecordSize then None
    else Some((ItemData(DecodeInt32(s[0..4]), DecodeInt32(s[4..8]), DecodeInt32(s[8..12]), DecodeBool(s[12])), s[RecordSize..]))
  }

  /** Reading back what was written gives the original record and leaves whatever followed it. */
  lemma DecodeEncode(d: ItemData, rest: seq<byte>)
    ensures Decode(Encode(d) + rest) == Some((d, rest))
  {
    var s := Encode(d) + rest;
    assert s[0..4] == EncodeInt32(d.id);
    assert s[4..8] == EncodeInt32(d.scrapValue);
    assert s[8..12] == EncodeInt32(d.saveData);
    DecodeEncodeInt32(d.id);
    DecodeEncodeInt32(d.scrapValue);
    DecodeEncodeInt32(d.saveData);
    assert s[RecordSize..] == rest;
  }

  /** Every well-formed record frame (boolean byte 0 or 1) is the encoding of the record it decodes to. */
  lemma EncodeDecode(s: seq<byte>)
    requires |s| >= RecordSize && s[12] <= 1
    ensures Decode(s).Some? && Encode(Decode(s).value.0) + Decode(s).value.1 == s
  {
    EncodeDecodeInt32(s[0..4]);
    EncodeDecodeInt32(s[4..8]);
    EncodeDecodeInt32(s[8..12]);
    var d := Decode(s).value.0;
    assert Encode(d) == s[0..4] + s[4..8] + s[8..12] + [s[12]];
    assert s == s[0..4] + s[4..8] + s[8..12] + [s[12]] + s[RecordSize..];
  }

  /** Different records have different encodings. */
  lemma EncodeInjective(a: ItemData, b: ItemData)
    requires Encode(a) == Encode(b)
    ensures a == b
  {
    DecodeEncode(a, []);
    DecodeEncode(b, []);
    assert Encode(a) + [] == Encode(b) + [];
  }
}
