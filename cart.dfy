/** The cartridge header logic of the host app (flash-programmer/www/src/cart.js): the magic
    word at offset 0, the in-place 16-bit byte swap, the internal CRC at offset 8, and the
    cartridge database keyed by that CRC.

    A buffer is its sequence of bytes. A Uint16Array argument stands for the bytes of its
    words in little-endian order (Base.WordBytes); a view's offset into a larger buffer is not
    modelled. */
module Cart {
  import opened Base
  import opened Text

  // ---------------------------------------------------------------------------
  // Header magic

  /** The four classifications, exported as the numbers 0 to 3. */
  datatype HeaderMagic = HeaderUnrecognized | HeaderOk | HeaderLittleEndian | HeaderBlank {
    function Code(): (c: nat)
      ensures c < 4
    {
      match this
      case HeaderUnrecognized => 0
      case HeaderOk => 1
      case HeaderLittleEndian => 2
      case HeaderBlank => 3
    }
  }

  /** The magic as two big-endian 16-bit words. */
  const MAGIC: seq<uint16> := [0x0E00, 0x0080]

  /** The first four bytes of a header in the device's byte order, of a little-endian dump,
      and of erased flash. */
  const OK_BYTES: seq<byte> := [0x0E, 0x00, 0x00, 0x80]
  const LITTLE_ENDIAN_BYTES: seq<byte> := [0x00, 0x0E, 0x80, 0x00]
  const BLANK_BYTES: seq<byte> := [0xFF, 0xFF, 0xFF, 0xFF]

  /** getCartHeaderMagic: the 4-byte DataView at offset 0 throws on a shorter buffer; then the
      big-endian magic, the byte-swapped magic and the all-ones word are checked in that order.
      Since the three byte patterns differ, each answer holds exactly when its pattern is there. */
  function GetCartHeaderMagic(buffer: seq<byte>): (r: Result<HeaderMagic>)
    ensures r.Thrown? <==> |buffer| < 4
    ensures r == Ok(HeaderOk) <==> |buffer| >= 4 && buffer[..4] == OK_BYTES
    ensures r == Ok(HeaderLittleEndian) <==> |buffer| >= 4 && buffer[..4] == LITTLE_ENDIAN_BYTES
    ensures r == Ok(HeaderBlank) <==> |buffer| >= 4 && buffer[..4] == BLANK_BYTES
  {
    if |buffer| < 4 then Thrown(RANGE_ERROR)
    else
      var head := buffer[..4];
      assert head == [buffer[0], buffer[1], buffer[2], buffer[3]];
      if GetUint16(buffer, 0, false) == MAGIC[0] && GetUint16(buffer, 2, false) == MAGIC[1] then
        Ok(HeaderOk)
      else if GetUint16(buffer, 0, true) == MAGIC[0] && GetUint16(buffer, 2, true) == MAGIC[1] then
        Ok(HeaderLittleEndian)
      else if GetUint32(buffer, 0, false) == 0xFFFF_FFFF then
        assert BigEndianBytes(0xFFFF_FFFF) == BLANK_BYTES;
        Ok(HeaderBlank)
      else
        Ok(HeaderUnrecognized)
  }

  // ---------------------------------------------------------------------------
  // swapBytes

  /** The byte swapBytes leaves at index i: pairs (2k, 2k+1) trade places. On an odd length the
      last byte is paired with the missing index past the end: reading it gives undefined, which
      the Uint8Array stores as 0, and the write past the end is dropped. */
  function SwappedAt(s: seq<byte>, i: nat): byte
    requires i < |s|
  {
    if i % 2 == 0 then (if i + 1 < |s| then s[i + 1] else 0) else s[i - 1]
  }

  function Swapped(s: seq<byte>): (r: seq<byte>)
    ensures |r| == |s|
    ensures forall k :: 0 <= k < |s| / 2 ==> r[2 * k] == s[2 * k + 1] && r[2 * k + 1] == s[2 * k]
    ensures |s| % 2 == 1 ==> r[|s| - 1] == 0
  {
    seq(|s|, i requires 0 <= i < |s| => SwappedAt(s, i))
  }

  /** swapBytes: the in-place loop over the byte view, two bytes per step. */
  method SwapBytes(view: array<byte>)
    modifies view
    ensures view[..] == Swapped(old(view[..]))
  {
    ghost var before := view[..];
    var i := 0;
    while i < view.Length
      invariant 0 <= i <= view.Length + 1 && i % 2 == 0
      invariant forall k :: 0 <= k < i && k < view.Length ==> view[k] == SwappedAt(before, k)
      invariant forall k :: i <= k < view.Length ==> view[k] == before[k]
    {
      var a := view[i];
      var b := if i + 1 < view.Length then view[i + 1] else 0;
      view[i] := b;
      if i + 1 < view.Length {
        view[i + 1] := a;
      }
      i := i + 2;
    }
  }

  /** On an even length, swapping twice restores the buffer. */
  lemma SwapTwice(s: seq<byte>)
    requires |s| % 2 == 0
    ensures Swapped(Swapped(s)) == s
  {
    var t := Swapped(Swapped(s));
    forall i | 0 <= i < |s| ensures t[i] == s[i] {
      if i % 2 == 0 {
        assert i == 2 * (i / 2);
      } else {
        assert i == 2 * (i / 2) + 1;
      }
    }
  }

  /** Swapping turns a little-endian dump's magic into the device's and back, and keeps a blank
      header blank; so a LITTLE_ENDIAN buffer reads OK after swapBytes. */
  lemma SwapClassification(s: seq<byte>)
    ensures GetCartHeaderMagic(s) == Ok(HeaderLittleEndian) ==> GetCartHeaderMagic(Swapped(s)) == Ok(HeaderOk)
    ensures GetCartHeaderMagic(s) == Ok(HeaderOk) ==> GetCartHeaderMagic(Swapped(s)) == Ok(HeaderLittleEndian)
    ensures GetCartHeaderMagic(s) == Ok(HeaderBlank) ==> GetCartHeaderMagic(Swapped(s)) == Ok(HeaderBlank)
  {
    if |s| >= 4 {
      var t := Swapped(s);
      assert t[0] == s[1] && t[1] == s[0] by { assert 0 == 2 * 0 && 1 == 2 * 0 + 1; }
      assert t[2] == s[3] && t[3] == s[2] by { assert 2 == 2 * 1 && 3 == 2 * 1 + 1; }
      assert s[..4] == [s[0], s[1], s[2], s[3]];
      assert t[..4] == [t[0], t[1], t[2], t[3]];
    }
  }

  // ---------------------------------------------------------------------------
  // Internal CRC and database lookup

  /** getInternalCrc: the 32-bit word at offset 8, big-endian unless littleEndian is set; the
      4-byte DataView at offset 8 throws on a buffer shorter than 12 bytes. */
  function GetInternalCrc(buffer: seq<byte>, littleEndian: bool := false): (r: Result<uint32>)
    ensures r.Thrown? <==> |buffer| < 12
    ensures r.Ok? ==> BigEndianBytes(r.value) == if littleEndian then Reverse4(buffer[8..12]) else buffer[8..12]
  {
    if |buffer| < 12 then Thrown(RANGE_ERROR) else Ok(GetUint32(buffer, 8, littleEndian))
  }

  /** The two byte orders read the same four bytes in reverse. */
  lemma InternalCrcByteOrders(buffer: seq<byte>)
    requires |buffer| >= 12
    ensures GetInternalCrc(buffer, true).Ok? && GetInternalCrc(buffer, false).Ok?
    ensures BigEndianBytes(GetInternalCrc(buffer, true).value) == Reverse4(BigEndianBytes(GetInternalCrc(buffer, false).value))
  {
  }

  /** One record of the cartridge database. */
  datatype CartEntry = CartEntry(name: string, product: string, mbit: string, fullCrc: string, internalCrc: string)

  /** The database object, indexed by the lower-cased internal CRC string. */
  type Database = map<string, CartEntry>

  /** A key that getCartData can produce for a buffer: eight lower-case hex digits spelling the
      big-endian CRC at offset 8. */
  predicate IsKeyFor(key: string, buffer: seq<byte>)
    requires |buffer| >= 12
  {
    |key| == 8 && AllDigitsOf(key, 16) && NumeralValue(key, 16) == BigEndianValue(buffer[8..12])
  }

  /** getCartData: the entry whose key is sprintf("%08x") of the big-endian internal CRC, or
      nothing (undefined) when no key matches. */
  function GetCartData(buffer: seq<byte>, db: Database): (r: Result<Option<CartEntry>>)
    ensures r.Thrown? <==> |buffer| < 12
    ensures r.Ok? ==> forall k | k in db && IsKeyFor(k, buffer) :: r.value == Some(db[k])
    ensures r.Ok? && r.value.None? ==> forall k | k in db :: !IsKeyFor(k, buffer)
    ensures r.Ok? && r.value.Some? ==> exists k | k in db :: IsKeyFor(k, buffer) && r.value.value == db[k]
  {
    match GetInternalCrc(buffer)
    case Thrown(e) => Thrown(e)
    case Ok(crc) =>
      var key := Hex8(crc);
      BigEndianValueOfBytes(crc);
      assert buffer[8..12] == BigEndianBytes(crc);
      forall k | k in db && IsKeyFor(k, buffer) ensures k == key {
        NumeralValueInjective(k, key, 16);
      }
      if key in db then Ok(Some(db[key])) else Ok(None)
  }

  /** Two digit strings of one length with one value are the same string. */
  lemma {:induction false} NumeralValueInjective(a: string, b: string, radix: Radix)
    requires |a| == |b| && AllDigitsOf(a, radix) && AllDigitsOf(b, radix)
    requires NumeralValue(a, radix) == NumeralValue(b, radix)
    ensures a == b
    decreases |a|
  {
    if |a| > 0 {
      var n := |a| - 1;
      var x, y := NumeralValue(a[..n], radix), NumeralValue(b[..n], radix);
      var d, e := DigitValue(a[n]), DigitValue(b[n]);
      assert x * radix + d == y * radix + e;
      if radix == 10 {
        assert x == y && d == e;
      } else {
        assert x == y && d == e;
      }
      NumeralValueInjective(a[..n], b[..n], radix);
      assert a == a[..n] + [a[n]] && b == b[..n] + [b[n]];
      assert a[n] == DigitChar(d) && b[n] == DigitChar(e);
    }
  }

  /** The lookup reads nothing but bytes 8 to 11. */
  lemma CartDataReadsOnlyCrc(a: seq<byte>, b: seq<byte>, db: Database)
    requires |a| >= 12 && |b| >= 12 && a[8..12] == b[8..12]
    ensures GetCartData(a, db) == GetCartData(b, db)
  {
  }

  // ---------------------------------------------------------------------------
  // The database, built from comma-separated text when the module loads

  /** The error that `internalCrc.toLowerCase()` throws when a line has fewer than five fields. */
  const TYPE_ERROR: string := "TypeError"

  /** A line the loader keeps: it does not start with '#', and something is left after
      trimming, that is some character of it is not white space. */
  predicate IsRecordLine(line: string): (r: bool)
    ensures r <==> (|line| == 0 || line[0] != '#') && !IsBlank(line)
  {
    TrimBlank(line);
    !StartsWith(line, '#') && |Trim(line)| > 0
  }

  /** The filter over the text's lines, in their order. */
  function Records(lines: seq<string>): (r: seq<string>)
    ensures |r| <= |lines|
    ensures forall i :: 0 <= i < |r| ==> IsRecordLine(r[i]) && r[i] in lines
    ensures forall i :: 0 <= i < |lines| && IsRecordLine(lines[i]) ==> lines[i] in r
  {
    if |lines| == 0 then []
    else
      var rest := Records(lines[1..]);
      assert forall i :: 1 <= i < |lines| ==> lines[i] == lines[1..][i - 1];
      if IsRecordLine(lines[0]) then [lines[0]] + rest else rest
  }

  function Fields(line: string): seq<string> {
    Split(line, ',')
  }

  /** A record line that destructures into five fields, and the key the loader files it under. */
  predicate HasKey(line: string, key: string) {
    |Fields(line)| >= 5 && ToLower(Fields(line)[4]) == key
  }

  function EntryOf(line: string): CartEntry
    requires |Fields(line)| >= 5
  {
    var f := Fields(line);
    CartEntry(f[0], f[1], f[2], f[3], f[4])
  }

  /** What the loader's loop has built after the given records: each one is filed under its
      lower-cased fifth field, a later record overwriting an earlier one; a record with fewer
      than five fields throws and stops the module from loading. */
  function Load(records: seq<string>): (r: Result<Database>)
    ensures r.Thrown? ==> r.error == TYPE_ERROR
  {
    if |records| == 0 then Ok(map[])
    else
      var line := records[|records| - 1];
      match Load(records[..|records| - 1])
      case Thrown(e) => Thrown(e)
      case Ok(db) =>
        var f := Fields(line);
        if |f| < 5 then Thrown(TYPE_ERROR) else Ok(db[ToLower(f[4]) := EntryOf(line)])
  }

  /** The module-level loop over the database text (cart.js lines 5-8). */
  method BuildDatabase(csv: string) returns (r: Result<Database>)
    ensures r == Load(Records(Split(csv, '\n')))
  {
    r := LoadRecords(Records(Split(csv, '\n')));
  }

  /** The loop over the record lines: each line's entry filed under its lowercased fifth
      field, the first line with fewer than five fields throwing. */
  method LoadRecords(records: seq<string>) returns (r: Result<Database>)
    ensures r == Load(records)
  {
    var db: Database := map[];
    var i := 0;
    while i < |records|
      invariant 0 <= i <= |records|
      invariant Load(records[..i]) == Ok(db)
    {
      assert records[..i + 1][..i] == records[..i];
      var f := Fields(records[i]);
      if |f| < 5 {
        LoadThrowsIff(records);
        return Thrown(TYPE_ERROR);
      }
      db := db[ToLower(f[4]) := EntryOf(records[i])];
      i := i + 1;
    }
    assert records[..i] == records;
    return Ok(db);
  }

  /** Loading fails exactly when some record has fewer than five fields. */
  lemma {:induction false} LoadThrowsIff(records: seq<string>)
    ensures Load(records).Thrown? <==> exists i :: 0 <= i < |records| && |Fields(records[i])| < 5
    decreases |records|
  {
    if |records| > 0 {
      var init := records[..|records| - 1];
      LoadThrowsIff(init);
      assert forall i :: 0 <= i < |init| ==> init[i] == records[i];
    }
  }

  /** On success, a key is present exactly when some record carries it, and it maps to the
      entry of the last record that carries it. */
  lemma LoadLastWins(records: seq<string>, key: string)
    requires Load(records).Ok?
    ensures key in Load(records).value <==> exists i :: 0 <= i < |records| && HasKey(records[i], key)
    ensures key in Load(records).value ==>
      exists i :: 0 <= i < |records| && HasKey(records[i], key) && Load(records).value[key] == EntryOf(records[i])
        && forall j :: i < j < |records| ==> !HasKey(records[j], key)
  {
    LoadKeyPresent(records, key);
    LoadLastEntry(records, key);
  }

  /** The result after the last record: the one before, with that record filed. */
  lemma LoadStep(records: seq<string>)
    requires |records| > 0 && Load(records).Ok?
    ensures Load(records[..|records| - 1]).Ok?
    ensures var line := records[|records| - 1];
      |Fields(line)| >= 5
      && Load(records).value == Load(records[..|records| - 1]).value[ToLower(Fields(line)[4]) := EntryOf(line)]
  {
  }

  lemma {:induction false} LoadKeyPresent(records: seq<string>, key: string)
    requires Load(records).Ok?
    ensures key in Load(records).value <==> exists i :: 0 <= i < |records| && HasKey(records[i], key)
    decreases |records|
  {
    if |records| > 0 {
      var n := |records| - 1;
      var init := records[..n];
      LoadStep(records);
      assert forall i :: 0 <= i < n ==> init[i] == records[i];
      LoadKeyPresent(init, key);
    }
  }

  lemma {:induction false} LoadLastEntry(records: seq<string>, key: string)
    requires Load(records).Ok?
    ensures key in Load(records).value ==>
      exists i :: 0 <= i < |records| && HasKey(records[i], key) && Load(records).value[key] == EntryOf(records[i])
        && forall j :: i < j < |records| ==> !HasKey(records[j], key)
    decreases |records|
  {
    if |records| > 0 && key in Load(records).value {
      var n := |records| - 1;
      var init := records[..n];
      var line := records[n];
      LoadStep(records);
      var db := Load(init).value;
      if HasKey(line, key) {
        assert HasKey(records[n], key) && Load(records).value[key] == EntryOf(records[n]);
      } else {
        assert key in db;
        LoadLastEntry(init, key);
        var i :| 0 <= i < n && HasKey(init[i], key) && db[key] == EntryOf(init[i])
          && forall j :: i < j < n ==> !HasKey(init[j], key);
        assert forall j :: i < j < |records| ==> !HasKey(records[j], key) by {
          forall j | i < j < |records| ensures !HasKey(records[j], key) {
            if j < n {
              assert records[j] == init[j];
            }
          }
        }
        assert HasKey(records[i], key) && Load(records).value[key] == EntryOf(records[i]);
      }
    }
  }

  /** Every key the loader files is lower case, as getCartData's keys are. */
  lemma {:induction false} LoadKeysLowerCase(records: seq<string>, key: string)
    requires Load(records).Ok? && key in Load(records).value
    ensures forall c :: c in key ==> !('A' <= c <= 'Z')
  {
    LoadLastWins(records, key);
  }
}
