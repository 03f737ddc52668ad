/** The table generator of gerar_tabela.py: 9-byte records of an 8-character
    name and a sector number, written one after the other and zero-filled to
    512 bytes. */
module SectorTable {
  import opened Bytes
  import opened DirEntry

  const NAME_BYTES := 8
  const RECORD_BYTES := 9
  const TABLE_BYTES := 512

  /** Why a record cannot be encoded: `encode("ascii")` raises on the name,
      or `bytes([setor])` raises on a sector outside 0..255. */
  datatype Error = NonAsciiName | SectorOutOfRange

  datatype Result<T> = Ok(value: T) | Fail(error: Error)

  /** `escrever_entrada(nome, setor)`: the name padded with spaces or cut to
      8 characters, encoded as ASCII, then the sector as one byte. The name
      is encoded before the sector byte is built, so a bad name is the error
      reported when both are bad. */
  function EntryRecord(nome: string, setor: int): (r: Result<seq<byte>>)
    ensures !IsAscii(Fit(nome, NAME_BYTES)) ==> r == Fail(NonAsciiName)
    ensures IsAscii(Fit(nome, NAME_BYTES)) && !(0 <= setor < 256) ==> r == Fail(SectorOutOfRange)
    ensures r.Ok? <==> IsAscii(Fit(nome, NAME_BYTES)) && 0 <= setor < 256
    ensures r.Ok? ==> |r.value| == RECORD_BYTES && r.value[NAME_BYTES] as int == setor
    ensures r.Ok? ==> forall i :: 0 <= i < NAME_BYTES ==>
      r.value[i] as int == (if i < |nome| then nome[i] else ' ') as int
  {
    var name := Fit(nome, NAME_BYTES);
    if !IsAscii(name) then Fail(NonAsciiName)
    else if !(0 <= setor < 256) then Fail(SectorOutOfRange)
    else Ok(Ascii(name) + [setor as byte])
  }

  /** Reading a record back: the 8 name characters and the sector byte. */
  function DecodeRecord(b: seq<byte>): (r: (string, int))
    requires |b| == RECORD_BYTES
    ensures |r.0| == NAME_BYTES && 0 <= r.1 < 256
  {
    (seq(NAME_BYTES, i requires 0 <= i < NAME_BYTES => b[i] as int as char), b[NAME_BYTES] as int)
  }

  /** A record decodes to the fitted name and the sector: the name keeps its
      case and its dot, and is only padded or cut. */
  lemma DecodeEntry(nome: string, setor: int)
    requires EntryRecord(nome, setor).Ok?
    ensures DecodeRecord(EntryRecord(nome, setor).value) == (Fit(nome, NAME_BYTES), setor)
  {
    var d := DecodeRecord(EntryRecord(nome, setor).value);
    assert d.0 == Fit(nome, NAME_BYTES);
  }

  /** Every record with an ASCII name is what EntryRecord makes of its
      decoded name and sector. */
  lemma EncodeDecoded(b: seq<byte>)
    requires |b| == RECORD_BYTES && forall i :: 0 <= i < NAME_BYTES ==> b[i] < 128
    ensures var d := DecodeRecord(b); EntryRecord(d.0, d.1) == Ok(b)
  {
    var d := DecodeRecord(b);
    assert Fit(d.0, NAME_BYTES) == d.0;
    assert Ascii(d.0) + [d.1 as byte] == b;
  }

  /** The records of `entries` in call order; the first entry that cannot
      be encoded stops the script with its error. */
  function Records(entries: seq<(string, int)>): (r: Result<seq<byte>>)
    ensures r.Ok? ==> |r.value| == RECORD_BYTES * |entries|
  {
    if entries == [] then Ok([])
    else
      match EntryRecord(entries[0].0, entries[0].1)
      case Fail(e) => Fail(e)
      case Ok(head) =>
        match Records(entries[1..])
        case Fail(e) => Fail(e)
        case Ok(rest) => Ok(head + rest)
  }

  /** The table: the records, then `512 - len` zero bytes, none once the
      records reach 512 bytes (a negative repeat count gives no bytes). */
  function Table(entries: seq<(string, int)>): (r: Result<seq<byte>>)
    ensures r.Ok? <==> Records(entries).Ok?
    ensures r.Fail? ==> r.error == Records(entries).error
    ensures r.Ok? ==> TABLE_BYTES <= |r.value| && Records(entries).value <= r.value
  {
    match Records(entries)
    case Fail(e) => Fail(e)
    case Ok(recs) => Ok(recs + Zeros(if |recs| < TABLE_BYTES then TABLE_BYTES - |recs| else 0))
  }

  /** The records succeed exactly when every entry does; otherwise the
      error is that of the first entry that fails. */
  lemma {:induction false} RecordsOk(entries: seq<(string, int)>)
    ensures Records(entries).Ok? <==> forall k :: 0 <= k < |entries| ==> EntryRecord(entries[k].0, entries[k].1).Ok?
    ensures !Records(entries).Ok? ==>
      exists k :: 0 <= k < |entries| &&
        (forall m :: 0 <= m < k ==> EntryRecord(entries[m].0, entries[m].1).Ok?) &&
        Records(entries) == EntryRecord(entries[k].0, entries[k].1)
  {
    if entries != [] {
      var tail := entries[1..];
      RecordsOk(tail);
      assert forall k :: 1 <= k < |entries| ==> entries[k] == tail[k - 1];
      if EntryRecord(entries[0].0, entries[0].1).Ok? && !Records(tail).Ok? {
        var k :| 0 <= k < |tail| &&
          (forall m :: 0 <= m < k ==> EntryRecord(tail[m].0, tail[m].1).Ok?) &&
          Records(tail) == EntryRecord(tail[k].0, tail[k].1);
        assert entries[k + 1] == tail[k];
        assert forall m :: 1 <= m < k + 1 ==> EntryRecord(entries[m].0, entries[m].1).Ok?;
      }
    }
  }

  /** Record `k` of the records is the record of entry `k`. */
  lemma {:induction false} RecordInRecords(entries: seq<(string, int)>, k: nat)
    requires k < |entries| && Records(entries).Ok?
    ensures EntryRecord(entries[k].0, entries[k].1).Ok?
    ensures Records(entries).value[RECORD_BYTES * k..RECORD_BYTES * k + RECORD_BYTES]
         == EntryRecord(entries[k].0, entries[k].1).value
  {
    var head := EntryRecord(entries[0].0, entries[0].1).value;
    var rest := Records(entries[1..]).value;
    assert Records(entries).value == head + rest;
    if k == 0 {
      assert (head + rest)[..RECORD_BYTES] == head;
    } else {
      RecordInRecords(entries[1..], k - 1);
      assert entries[1..][k - 1] == entries[k];
      var lo := RECORD_BYTES * (k - 1);
      SliceInPrefix(head + rest, head, rest, lo, lo + RECORD_BYTES, RECORD_BYTES * k, RECORD_BYTES * k + RECORD_BYTES);
    }
  }

  /** The table holds the records at the start, zeros after them, and has
      512 bytes or 9 per record, whichever is more. */
  lemma TableLayout(entries: seq<(string, int)>)
    requires Records(entries).Ok?
    ensures Table(entries).Ok?
    ensures var t, n := Table(entries).value, RECORD_BYTES * |entries|;
      |t| == (if n < TABLE_BYTES then TABLE_BYTES else n) &&
      t[..n] == Records(entries).value && AllZero(t[n..])
  {
    var recs := Records(entries).value;
    var k := if |recs| < TABLE_BYTES then TABLE_BYTES - |recs| else 0;
    ZerosAreZero(k);
    assert (recs + Zeros(k))[|recs|..] == Zeros(k);
  }

  /** Entry `k` of the table, read back: its fitted name and its sector. */
  lemma TableEntry(entries: seq<(string, int)>, k: nat)
    requires k < |entries| && Table(entries).Ok?
    ensures RECORD_BYTES * k + RECORD_BYTES <= |Table(entries).value|
    ensures DecodeRecord(Table(entries).value[RECORD_BYTES * k..RECORD_BYTES * k + RECORD_BYTES])
         == (Fit(entries[k].0, NAME_BYTES), entries[k].1)
  {
    var recs := Records(entries).value;
    TableLayout(entries);
    RecordInRecords(entries, k);
    DecodeEntry(entries[k].0, entries[k].1);
    var t := Table(entries).value;
    var lo := RECORD_BYTES * k;
    assert t[lo..lo + RECORD_BYTES] == t[..|recs|][lo..lo + RECORD_BYTES];
  }

  /** The two calls of the script: "msg.txt" with sector 2 and "sobre.txt"
      with sector 3. */
  const SCRIPT_ENTRIES: seq<(string, int)> := [("msg.txt", 2), ("sobre.txt", 3)]

  /** tabela.bin as the script writes it: "msg.txt " and sector 2,
      "sobre.tx" (cut, not upper-cased) and sector 3, then 494 zeros. */
  lemma ScriptTable()
    ensures Table(SCRIPT_ENTRIES)
         == Ok([0x6D, 0x73, 0x67, 0x2E, 0x74, 0x78, 0x74, 0x20, 2,
                0x73, 0x6F, 0x62, 0x72, 0x65, 0x2E, 0x74, 0x78, 3] + Zeros(494))
  {
    var e1 := EntryRecord("msg.txt", 2);
    var e2 := EntryRecord("sobre.txt", 3);
    assert Fit("msg.txt", NAME_BYTES) == "msg.txt ";
    assert Fit("sobre.txt", NAME_BYTES) == "sobre.tx";
    assert IsAscii("msg.txt ") && IsAscii("sobre.tx");
    assert Ascii("msg.txt ") + [2 as byte] == [0x6D, 0x73, 0x67, 0x2E, 0x74, 0x78, 0x74, 0x20, 2];
    assert Ascii("sobre.tx") + [3 as byte] == [0x73, 0x6F, 0x62, 0x72, 0x65, 0x2E, 0x74, 0x78, 3];
    var r1: seq<byte> := [0x6D, 0x73, 0x67, 0x2E, 0x74, 0x78, 0x74, 0x20, 2];
    var r2: seq<byte> := [0x73, 0x6F, 0x62, 0x72, 0x65, 0x2E, 0x74, 0x78, 3];
    assert e1 == Ok(r1) && e2 == Ok(r2);
    var tail := SCRIPT_ENTRIES[1..];
    assert tail[0] == ("sobre.txt", 3) && tail[1..] == [];
    assert Records(tail[1..]) == Ok([]);
    assert r2 + [] == r2;
    assert Records(tail) == Ok(r2);
    assert SCRIPT_ENTRIES[0] == ("msg.txt", 2);
    assert Records(SCRIPT_ENTRIES) == Ok(r1 + r2);
    assert r1 + r2 == [0x6D, 0x73, 0x67, 0x2E, 0x74, 0x78, 0x74, 0x20, 2,
                       0x73, 0x6F, 0x62, 0x72, 0x65, 0x2E, 0x74, 0x78, 3];
  }
}
