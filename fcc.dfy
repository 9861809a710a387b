/** The regulatory side (src/fcc.rs): a serviceable-location row as
    deserialized from the CSV extract, its conversion into a record with
    decoded text fields, and the filter that keeps the rows that parsed. */
module Fcc {
  import opened RustTypes

  /** A row as deserialized, with some text fields still raw bytes (`FccByteRecord`). */
  datatype FccByteRecord = FccByteRecord(
    locationId: seq<u8>,
    addressPrimary: Option<seq<u8>>,
    city: Option<seq<u8>>,
    state: seq<u8>,
    zip: Option<u32>,
    zipSuffix: Option<u32>,
    unitCount: u64,
    bslFlag: seq<u8>,
    buildingTypeCode: char,
    landUseCode: u64,
    addressConfidenceCode: u64,
    countyGeoid: seq<u8>,
    blockGeoid: string,
    h3Res9: string,
    latitude: F64,
    longitude: F64
  )

  /** A location record with every text field decoded (`FccRecord`). */
  datatype FccRecord = FccRecord(
    locationId: string,
    addressPrimary: Option<string>,
    city: Option<string>,
    state: string,
    zip: Option<u32>,
    zipSuffix: Option<u32>,
    unitCount: u64,
    bslFlag: bool,
    buildingTypeCode: char,
    landUseCode: u64,
    addressConfidenceCode: u64,
    countyGeoid: string,
    blockGeoid: string,
    h3Res9: string,
    latitude: F64,
    longitude: F64
  )

  /** ISO/IEC 8859-1: `s` has one character per byte, and each character's
      code point is the value of its byte. */
  predicate Latin1Text(bytes: seq<u8>, s: string)
  {
    |s| == |bytes| && forall i :: 0 <= i < |s| ==> s[i] as int == bytes[i] as int
  }

  /** Every character of `s` has a code point below 256. */
  predicate IsLatin1(s: string)
  {
    forall i :: 0 <= i < |s| ==> s[i] as int < 0x100
  }

  /** `utf8`: decodes bytes as Latin-1 (`encoding_rs::mem::decode_latin1`). */
  function Utf8(bytes: seq<u8>): (s: string)
    ensures Latin1Text(bytes, s)
  {
    if bytes == [] then [] else [bytes[0] as int as char] + Utf8(bytes[1..])
  }

  /** Encodes a string of Latin-1 characters back into its bytes. */
  function Latin1Encode(s: string): (bytes: seq<u8>)
    requires IsLatin1(s)
    ensures Latin1Text(bytes, s)
  {
    if s == [] then [] else [s[0] as int as u8] + Latin1Encode(s[1..])
  }

  /** A Latin-1 text is determined by its bytes, and the bytes by the text. */
  lemma Latin1TextUnique(a: seq<u8>, b: seq<u8>, s: string, t: string)
    requires Latin1Text(a, s) && Latin1Text(b, t)
    ensures s == t <==> a == b
  {
    if s == t {
      assert forall i :: 0 <= i < |a| ==> a[i] == b[i] by {
        forall i | 0 <= i < |a| ensures a[i] == b[i] {
          assert a[i] as int == s[i] as int == t[i] as int == b[i] as int;
        }
      }
    }
  }

  /** Decoding then encoding gives back the bytes, and every decoded text is Latin-1. */
  lemma EncodeUtf8(bytes: seq<u8>)
    ensures IsLatin1(Utf8(bytes)) && Latin1Encode(Utf8(bytes)) == bytes
  {
    Latin1TextUnique(Latin1Encode(Utf8(bytes)), bytes, Utf8(bytes), Utf8(bytes));
  }

  /** Encoding then decoding gives back the text. */
  lemma Utf8Encode(s: string)
    requires IsLatin1(s)
    ensures Utf8(Latin1Encode(s)) == s
  {
    Latin1TextUnique(Latin1Encode(s), Latin1Encode(s), Utf8(Latin1Encode(s)), s);
  }

  /** Bytes below 0x80 decode to the ASCII text with the same codes. */
  lemma AsciiUnchanged(s: string)
    requires forall i :: 0 <= i < |s| ==> s[i] as int < 0x80
    ensures IsLatin1(s) && Utf8(Latin1Encode(s)) == s
    ensures forall i :: 0 <= i < |s| ==> Latin1Encode(s)[i] < 0x80
  {
    Utf8Encode(s);
  }

  /** The bytes of the text "TRUE". */
  const TrueBytes: seq<u8> := [0x54, 0x52, 0x55, 0x45]

  /** `bsl_flag`: the decoded field compared with "TRUE", case and all. */
  function BslFlag(raw: seq<u8>): (flag: bool)
    ensures flag <==> raw == TrueBytes
  {
    Latin1TextUnique(raw, TrueBytes, Utf8(raw), "TRUE");
    Utf8(raw) == "TRUE"
  }

  /** For a field holding the Latin-1 encoding of a text, the flag is true
      exactly when that text is "TRUE". */
  lemma BslFlagOfText(s: string)
    requires IsLatin1(s)
    ensures BslFlag(Latin1Encode(s)) <==> s == "TRUE"
  {
    Utf8Encode(s);
  }

  /** "true" (bytes 74 72 75 65), "True" (54 72 75 65) and the empty field
      are not a serviceable-location flag; "TRUE" (54 52 55 45) is. */
  lemma BslFlagIsExact()
    ensures !BslFlag([0x74, 0x72, 0x75, 0x65]) && !BslFlag([0x54, 0x72, 0x75, 0x65]) && !BslFlag([])
    ensures BslFlag([0x54, 0x52, 0x55, 0x45])
  {
  }

  /** `From<FccByteRecord> for FccRecord`. The byte fields are Latin-1 decoded,
      the flag is true exactly for "TRUE", and every other field is copied. */
  function FromByteRecord(r: FccByteRecord): (f: FccRecord)
    ensures Latin1Text(r.locationId, f.locationId)
    ensures f.addressPrimary.Some? <==> r.addressPrimary.Some?
    ensures r.addressPrimary.Some? ==> Latin1Text(r.addressPrimary.value, f.addressPrimary.value)
    ensures f.city.Some? <==> r.city.Some?
    ensures r.city.Some? ==> Latin1Text(r.city.value, f.city.value)
    ensures Latin1Text(r.state, f.state)
    ensures f.bslFlag <==> r.bslFlag == TrueBytes
    ensures Latin1Text(r.countyGeoid, f.countyGeoid)
    ensures f.zip == r.zip && f.zipSuffix == r.zipSuffix && f.unitCount == r.unitCount
    ensures f.buildingTypeCode == r.buildingTypeCode && f.landUseCode == r.landUseCode
    ensures f.addressConfidenceCode == r.addressConfidenceCode
    ensures f.blockGeoid == r.blockGeoid && f.h3Res9 == r.h3Res9
    ensures f.latitude == r.latitude && f.longitude == r.longitude
  {
    FccRecord(
      locationId := Utf8(r.locationId),
      addressPrimary := if r.addressPrimary.Some? then Some(Utf8(r.addressPrimary.value)) else None,
      city := if r.city.Some? then Some(Utf8(r.city.value)) else None,
      state := Utf8(r.state),
      zip := r.zip,
      zipSuffix := r.zipSuffix,
      unitCount := r.unitCount,
      bslFlag := BslFlag(r.bslFlag),
      buildingTypeCode := r.buildingTypeCode,
      landUseCode := r.landUseCode,
      addressConfidenceCode := r.addressConfidenceCode,
      countyGeoid := Utf8(r.countyGeoid),
      blockGeoid := r.blockGeoid,
      h3Res9 := r.h3Res9,
      latitude := r.latitude,
      longitude := r.longitude
    )
  }

  /** What reading one CSV row produced: a row the reader could not read, a
      row that did not deserialize into an `FccByteRecord`, or the record. */
  datatype RowResult = Unreadable | Undeserializable | Deserialized(record: FccByteRecord)

  /** The `filter_map` of `process_fcc_data`: the converted records of the
      rows that deserialized, in row order. */
  function KeepDeserialized(rows: seq<RowResult>): (records: seq<FccRecord>)
    ensures |records| <= |rows|
  {
    if rows == [] then []
    else
      var rest := KeepDeserialized(rows[1..]);
      match rows[0]
      case Deserialized(record) => [FromByteRecord(record)] + rest
      case _ => rest
  }

  /** Filtering commutes with concatenation: rows are kept in order and each
      row's fate does not depend on the others. */
  lemma {:induction false} KeepDeserializedAppend(a: seq<RowResult>, b: seq<RowResult>)
    ensures KeepDeserialized(a + b) == KeepDeserialized(a) + KeepDeserialized(b)
  {
    if a != [] {
      assert (a + b)[0] == a[0] && (a + b)[1..] == a[1..] + b;
      KeepDeserializedAppend(a[1..], b);
    } else {
      assert a + b == b;
    }
  }

  /** One row alone: kept and converted when it deserialized, dropped otherwise. */
  lemma KeepDeserializedOne(row: RowResult)
    ensures KeepDeserialized([row]) == if row.Deserialized? then [FromByteRecord(row.record)] else []
  {
  }

  /** Every output record is the conversion of some row that deserialized. */
  lemma {:induction false} KeepDeserializedSound(rows: seq<RowResult>, k: nat)
    requires k < |KeepDeserialized(rows)|
    ensures exists i ::
      0 <= i < |rows| && rows[i].Deserialized? && KeepDeserialized(rows)[k] == FromByteRecord(rows[i].record)
  {
    var rest := KeepDeserialized(rows[1..]);
    assert KeepDeserialized(rows) == if rows[0].Deserialized? then [FromByteRecord(rows[0].record)] + rest else rest;
    if rows[0].Deserialized? && k == 0 {
      assert rows[0].Deserialized? && KeepDeserialized(rows)[k] == FromByteRecord(rows[0].record);
    } else {
      var k' := if rows[0].Deserialized? then k - 1 else k;
      KeepDeserializedSound(rows[1..], k');
      var i :| 0 <= i < |rows[1..]| && rows[1..][i].Deserialized? && rest[k'] == FromByteRecord(rows[1..][i].record);
      assert KeepDeserialized(rows)[k] == rest[k'];
      assert rows[i + 1] == rows[1..][i];
    }
  }

  /** Nothing is dropped exactly when every row deserialized; then record i is the conversion of row i. */
  lemma {:induction false} KeepDeserializedAll(rows: seq<RowResult>)
    ensures |KeepDeserialized(rows)| == |rows| <==> forall i :: 0 <= i < |rows| ==> rows[i].Deserialized?
    ensures (forall i :: 0 <= i < |rows| ==> rows[i].Deserialized?) ==>
      forall i :: 0 <= i < |rows| ==> KeepDeserialized(rows)[i] == FromByteRecord(rows[i].record)
  {
    if rows != [] {
      KeepDeserializedAll(rows[1..]);
      assert forall i :: 1 <= i < |rows| ==> rows[i] == rows[1..][i - 1];
      if rows[0].Deserialized? {
        assert KeepDeserialized(rows) == [FromByteRecord(rows[0].record)] + KeepDeserialized(rows[1..]);
      } else {
        assert KeepDeserialized(rows) == KeepDeserialized(rows[1..]);
      }
    }
  }
}
