/** The host app's command and transfer logic (flash-programmer/www/src/index.js, the protocol
    revision with the "P<words>" upload command): command padding, the un-padding of flash
    uploads, the SRAM size gate, the protocol-version handshake, the receiver's line log and
    the assembly of a download into a fixed buffer.

    The page's module-level state (the selected port, the handshake text, the receiver lines)
    is the class App; the state a download's receive handler closes over is the class
    Download. The DOM is replaced by the list of receiver lines. */
module Host {
  import opened Base
  import opened Text
  import opened Serial

  const PROTOCOL_VERSION: nat := 2
  /** The word erased flash reads as; an upload's trailing run of it is not sent. */
  const PAD: uint16 := 0xFFFF
  const SERIAL_BUFFER_SIZE: nat := 64
  const SRAM_SIZE: nat := 8192

  /** `D${1 << 20}\r`: dump 2^20 words of flash, 2 MiB. */
  const FLASH_DOWNLOAD_COMMAND: string := "D1048576\r"
  const FLASH_DOWNLOAD_SIZE: nat := 0x20_0000
  const SRAM_DOWNLOAD_COMMAND: string := "Ds\r"

  // ---------------------------------------------------------------------------
  // Commands

  /** padCommand: the command followed by carriage returns, cut to the 64-byte serial
      buffer, so that a command followed by data has a predictable size. */
  function PadCommand(s: string): (r: string)
    ensures |r| == SERIAL_BUFFER_SIZE
    ensures |s| <= SERIAL_BUFFER_SIZE ==>
      && r[..|s|] == s
      && forall i :: |s| <= i < SERIAL_BUFFER_SIZE ==> r[i] == '\r'
    ensures |s| > SERIAL_BUFFER_SIZE ==> r == s[..SERIAL_BUFFER_SIZE]
  {
    (s + Repeat('\r', SERIAL_BUFFER_SIZE))[..SERIAL_BUFFER_SIZE]
  }

  /** The character codes of an ASCII string, which are its UTF-8 bytes. */
  function Codes(s: string): (b: seq<byte>)
    requires IsAscii(s)
    ensures |b| == |s|
  {
    seq(|s|, i requires 0 <= i < |s| => s[i] as int)
  }

  /** Sending a padded ASCII command overwrites the whole shared buffer with the command's
      codes, so no byte of an earlier send goes out with it. */
  lemma PaddedCommandFillsBuffer(s: string)
    requires IsAscii(s)
    ensures IsAscii(PadCommand(s))
    ensures EncodeInto(PadCommand(s), BUFSIZE) == Codes(PadCommand(s))
  {
    var p := PadCommand(s);
    assert IsAscii(p) by {
      forall i | 0 <= i < |p| ensures (p[i] as int) < 0x80 {
        if i < |s| {
          assert p[i] == s[i] by { if |s| <= SERIAL_BUFFER_SIZE { assert p[..|s|][i] == s[i]; } }
        }
      }
    }
    AsciiSendPrefix(p);
  }

  lemma DecimalIsAscii(n: nat)
    ensures IsAscii(DecimalString(n))
    ensures forall i :: 0 <= i < |DecimalString(n)| ==> IsDecimalDigit(DecimalString(n)[i])
  {
    var d := DecimalString(n);
    forall i | 0 <= i < |d| ensures IsDecimalDigit(d[i]) {
      assert IsDigitOf(d[i], 10);
    }
  }

  /** The upload command "P<n>", padded, still carries n for the device's parseInt as long
      as the numeral fits the buffer: the first character is 'P' and the rest parses to n. */
  lemma WordCountCommand(n: nat)
    requires n < Power(10, SERIAL_BUFFER_SIZE - 1)
    ensures PadCommand("P" + DecimalString(n))[0] == 'P'
    ensures ParseLeadingInt(PadCommand("P" + DecimalString(n))[1..]) == Some(n)
  {
    var d := DecimalString(n);
    var s := "P" + d;
    NumeralLength(n, 10, SERIAL_BUFFER_SIZE - 1);
    var p := PadCommand(s);
    assert p[..|s|] == s;
    var rest := p[|s|..];
    assert p[1..] == d + rest by {
      assert p == p[..|s|] + rest;
      assert s[1..] == d;
    }
    assert |rest| == 0 || rest[0] == '\r';
    ParseDecimal(n, rest);
  }

  // ---------------------------------------------------------------------------
  // Un-padding a flash upload

  /** findLastIndex(w => w !== PAD): the index of the last word that is not PAD, or -1. */
  function FindLastNonPad(words: seq<uint16>): (r: int)
    ensures -1 <= r < |words|
    ensures r >= 0 ==> words[r] != PAD
    ensures forall k :: r < k < |words| ==> words[k] == PAD
  {
    if |words| == 0 then -1
    else if words[|words| - 1] != PAD then |words| - 1
    else FindLastNonPad(words[..|words| - 1])
  }

  /** The un-pad block: cut just after the last word that is not PAD; a buffer of nothing but
      PAD, or an empty one, is left as it is. */
  function Unpad(words: seq<uint16>): (r: seq<uint16>)
    ensures |r| <= |words| && r == words[..|r|]
    ensures forall k :: |r| <= k < |words| ==> words[k] == PAD
    ensures (forall k :: 0 <= k < |words| ==> words[k] == PAD) ==> r == words
    ensures (exists k :: 0 <= k < |words| && words[k] != PAD) ==> r[|r| - 1] != PAD
  {
    var last := FindLastNonPad(words);
    if last >= 0 then words[..last + 1] else words
  }

  /** Un-padding removes exactly a run of PAD appended to data that does not end in PAD. */
  lemma UnpadPadded(data: seq<uint16>, n: nat)
    requires |data| > 0 && data[|data| - 1] != PAD
    ensures Unpad(data + seq(n, _ => PAD)) == data
  {
    var w := data + seq(n, _ => PAD);
    assert w[|data| - 1] != PAD;
    assert forall k :: |data| <= k < |w| ==> w[k] == PAD;
    assert FindLastNonPad(w) == |data| - 1;
    assert w[..|data|] == data;
  }

  /** Un-padding twice is un-padding once. */
  lemma UnpadIdempotent(words: seq<uint16>)
    ensures Unpad(Unpad(words)) == Unpad(words)
  {
    var r := Unpad(words);
    if exists k :: 0 <= k < |words| && words[k] != PAD {
      assert FindLastNonPad(r) == |r| - 1;
      assert r[..|r|] == r;
    } else {
      assert r == words;
    }
  }

  /** The bytes a flash upload sends are the file up to the end of its last word that is not
      PAD; every byte of the file after them is 0xFF. */
  lemma UploadIsFilePrefix(file: seq<byte>)
    requires |file| % 2 == 0
    ensures var data := WordBytes(Unpad(Words(file)));
      && data == file[..|data|]
      && forall k :: |data| <= k < |file| ==> file[k] == 0xFF
  {
    var words := Words(file);
    var r := Unpad(words);
    var data := WordBytes(r);
    WordBytesPrefix(words, |r|);
    WordsRoundTrip(file);
    assert data == file[..|data|];
    forall k | |data| <= k < |file| ensures file[k] == 0xFF {
      var j := k / 2;
      assert words[j] == PAD;
      assert WordBytes(words)[2 * j] == 0xFF && WordBytes(words)[2 * j + 1] == 0xFF;
      assert k == 2 * j || k == 2 * j + 1;
    }
  }

  // ---------------------------------------------------------------------------
  // The receiver's line log

  /** The lines after appendLines(text): the first '\r'-separated segment goes onto the
      current (last) line when there is one, and every further segment starts a new line. */
  function Appended(lines: seq<string>, text: string): (r: seq<string>)
    ensures |r| >= 1
    ensures |lines| > 0 ==>
      && |r| >= |lines|
      && r[..|lines| - 1] == lines[..|lines| - 1]
      && |r[|lines| - 1]| >= |lines[|lines| - 1]|
      && r[|lines| - 1][..|lines[|lines| - 1]|] == lines[|lines| - 1]
  {
    var parts := Split(text, '\r');
    if |lines| > 0 then lines[..|lines| - 1] + [lines[|lines| - 1] + parts[0]] + parts[1..]
    else parts
  }

  /** The receiver lines, joined with '\r', read as exactly the text echoed to them. */
  lemma AppendedJoin(lines: seq<string>, text: string)
    ensures Join(Appended(lines, text), '\r') == if |lines| > 0 then Join(lines, '\r') + text else text
  {
    var parts := Split(text, '\r');
    JoinSplit(text, '\r');
    if |lines| > 0 {
      var n := |lines|;
      var head := lines[..n - 1] + [lines[n - 1] + parts[0]];
      assert Appended(lines, text) == head + parts[1..];
      JoinExtendLast(lines, parts[0], '\r');
      var jl := Join(lines, '\r');
      assert Join(head, '\r') == jl + parts[0];
      if |parts| > 1 {
        var jt := Join(parts[1..], '\r');
        JoinAppend(head, parts[1..], '\r');
        assert Join(head + parts[1..], '\r') == jl + parts[0] + ['\r'] + jt;
        assert text == parts[0] + ['\r'] + jt;
        ConcatAssoc(jl, parts[0], ['\r'], jt);
      } else {
        assert head + parts[1..] == head;
        assert text == parts[0];
      }
    }
  }

  lemma ConcatAssoc(a: string, b: string, c: string, d: string)
    ensures a + b + c + d == a + (b + c + d)
  {
  }

  predicate FreeOfReturns(lines: seq<string>) {
    forall i :: 0 <= i < |lines| ==> '\r' !in lines[i]
  }

  /** On lines without '\r', appending text gives the lines of the whole log's text. */
  lemma AppendedIsSplit(lines: seq<string>, text: string)
    requires |lines| > 0 && FreeOfReturns(lines)
    ensures Appended(lines, text) == Split(Join(lines, '\r') + text, '\r')
  {
    var r := Appended(lines, text);
    AppendedFree(lines, text);
    SplitJoin(r, '\r');
    AppendedJoin(lines, text);
  }

  lemma AppendedFree(lines: seq<string>, text: string)
    requires FreeOfReturns(lines)
    ensures FreeOfReturns(Appended(lines, text))
  {
    var r := Appended(lines, text);
    var parts := Split(text, '\r');
    if |lines| > 0 {
      var n := |lines|;
      assert r == lines[..n - 1] + [lines[n - 1] + parts[0]] + parts[1..];
      forall i | 0 <= i < |r| ensures '\r' !in r[i] {
        if i == n - 1 {
          assert r[i] == lines[i] + parts[0];
        } else if i < n - 1 {
          assert r[i] == lines[i];
        } else {
          assert r[i] == parts[i - n + 1];
        }
      }
    }
  }

  /** The log does not depend on how the echoed text was cut into packets. */
  lemma AppendedChunking(lines: seq<string>, a: string, b: string)
    requires FreeOfReturns(lines)
    ensures Appended(Appended(lines, a), b) == Appended(lines, a + b)
  {
    if |lines| > 0 {
      ChunkingOnLines(lines, a, b);
    } else {
      ChunkingOnEmpty(a, b);
    }
  }

  lemma ChunkingOnLines(lines: seq<string>, a: string, b: string)
    requires |lines| > 0 && FreeOfReturns(lines)
    ensures Appended(Appended(lines, a), b) == Appended(lines, a + b)
  {
    AppendedTwiceIsSplit(lines, a, b);
    AppendedIsSplit(lines, a + b);
  }

  lemma AppendedTwiceIsSplit(lines: seq<string>, a: string, b: string)
    requires |lines| > 0 && FreeOfReturns(lines)
    ensures Appended(Appended(lines, a), b) == Split(Join(lines, '\r') + (a + b), '\r')
  {
    var la := Appended(lines, a);
    var j := Join(lines, '\r');
    var jl := Join(la, '\r');
    AppendedJoin(lines, a);
    assert jl == j + a;
    assert jl + b == j + (a + b);
    AppendedFree(lines, a);
    AppendedIsSplit(la, b);
  }

  lemma ChunkingOnEmpty(a: string, b: string)
    ensures Appended(Appended([], a), b) == Appended([], a + b)
  {
    var la := Appended([], a);
    AppendedFree([], a);
    AppendedIsSplit(la, b);
    AppendedJoin([], a);
  }

  // ---------------------------------------------------------------------------
  // The protocol-version handshake

  /** Where the text received so far leaves the handshake: still waiting for the '\0' that ends
      the version, accepted with the text after it, or rejected with what parseInt read. */
  datatype Handshake = Waiting | Accepted(more: string) | Rejected(version: Option<nat>)

  function HandshakeOf(received: string): (h: Handshake)
    ensures h.Waiting? <==> '\0' !in received
    ensures h.Accepted? ==> |h.more| < |received|
  {
    var end := IndexOf(received, '\0');
    if end < 0 then Waiting
    else
      var version := ParseLeadingInt(received[..end]);
      if version == Some(PROTOCOL_VERSION) then Accepted(received[end + 1..]) else Rejected(version)
  }

  /** A device that answers with its version, a '\0' and more text is accepted exactly when
      the version is PROTOCOL_VERSION, and the more text is what gets echoed. */
  lemma HandshakeOfReply(version: nat, more: string)
    ensures HandshakeOf(DecimalString(version) + "\0" + more)
      == if version == PROTOCOL_VERSION then Accepted(more) else Rejected(Some(version))
  {
    var d := DecimalString(version);
    var s := d + "\0" + more;
    DecimalIsAscii(version);
    assert '\0' !in d by {
      forall i | 0 <= i < |d| ensures d[i] != '\0' {
        assert IsDecimalDigit(d[i]);
      }
    }
    IndexOfAfterFreePrefix(d, more, '\0');
    assert s[..|d|] == d + "";
    assert d + "" == d;
    ParseDecimal(version, "");
    assert s[|d| + 1..] == more;
  }

  // ---------------------------------------------------------------------------
  // The download receiver

  function Concat(packets: seq<seq<byte>>): seq<byte> {
    if |packets| == 0 then [] else Concat(packets[..|packets| - 1]) + packets[|packets| - 1]
  }

  function TotalLength(packets: seq<seq<byte>>): nat {
    if |packets| == 0 then 0 else TotalLength(packets[..|packets| - 1]) + |packets[|packets| - 1]|
  }

  /** The bytes of the packets, concatenated, number the sum of their lengths. */
  lemma {:induction false} ConcatLength(packets: seq<seq<byte>>)
    ensures |Concat(packets)| == TotalLength(packets)
  {
    if |packets| > 0 {
      ConcatLength(packets[..|packets| - 1]);
    }
  }

  /** The buffer and write cursor a download's receive handler closes over. */
  /** Adding a packet appends its bytes to the concatenation and its length to the total. */
  lemma ConcatSnoc(packets: seq<seq<byte>>, data: seq<byte>)
    ensures Concat(packets + [data]) == Concat(packets) + data
    ensures TotalLength(packets + [data]) == TotalLength(packets) + |data|
  {
    assert (packets + [data])[..|packets|] == packets;
  }

  /** A buffer that agrees with `before` outside [at, at + |data|) and holds `data` inside it
      is `before` with that range replaced. */
  lemma Spliced(after: seq<byte>, before: seq<byte>, at: nat, data: seq<byte>)
    requires |after| == |before| && at + |data| <= |before|
    requires forall k :: 0 <= k < at ==> after[k] == before[k]
    requires forall k :: 0 <= k < |data| ==> after[at + k] == data[k]
    requires forall k :: at + |data| <= k < |before| ==> after[k] == before[k]
    ensures after == before[..at] + data + before[at + |data|..]
    ensures after[..at + |data|] == before[..at] + data
  {
    var spliced := before[..at] + data + before[at + |data|..];
    forall k | 0 <= k < |after| ensures after[k] == spliced[k] {
      if k < at {
      } else if k < at + |data| {
        assert after[at + (k - at)] == data[k - at];
      }
    }
    assert after == spliced;
    assert spliced[..at + |data|] == before[..at] + data;
  }

  /** TypedArray.set: `data` copied into `buffer` starting at `at`, every other byte kept. */
  method CopyAt(buffer: array<byte>, at: nat, data: seq<byte>)
    requires at + |data| <= buffer.Length
    modifies buffer
    ensures buffer[..] == old(buffer[..at]) + data + old(buffer[at + |data|..])
    ensures buffer[..at + |data|] == old(buffer[..at]) + data
  {
    ghost var original := buffer[..];
    var i := 0;
    while i < |data|
      invariant 0 <= i <= |data|
      invariant forall k :: 0 <= k < at ==> buffer[k] == original[k]
      invariant forall k :: 0 <= k < i ==> buffer[at + k] == data[k]
      invariant forall k :: at + i <= k < buffer.Length ==> buffer[k] == original[k]
    {
      buffer[at + i] := data[i];
      i := i + 1;
    }
    Spliced(buffer[..], original, at, data);
  }

  class Download {
    /** The ArrayBuffer of the requested size, zero-filled. */
    const dump: array<byte>
    /** addrBytes, the write cursor. */
    var addr: nat
    /** The handler has seen the cursor reach the end and restored the echo handler. */
    var done: bool
    /** The packets copied so far, in arrival order. */
    ghost var packets: seq<seq<byte>>

    ghost predicate Valid()
      reads this, dump
    {
      && addr <= dump.Length
      && addr == TotalLength(packets)
      && dump[..addr] == Concat(packets)
      && (done <==> |packets| > 0 && addr == dump.Length)
    }

    constructor (size: nat)
      ensures Valid() && fresh(dump) && dump.Length == size
      ensures forall i :: 0 <= i < size ==> dump[i] == 0
      ensures addr == 0 && !done && packets == []
    {
      dump := new byte[size](_ => 0);
      addr := 0;
      done := false;
      packets := [];
    }

    /** The receive handler for one packet. A packet that does not fit between the cursor and
        the end throws RangeError when its view is made, before anything is copied. Otherwise
        it is copied at the cursor, the cursor advances by its length, and once the cursor
        reaches the end the echo handler is put back. */
    method Receive(port: Port, data: seq<byte>) returns (error: Option<string>)
      requires Valid() && !done
      modifies this, dump, port`onReceive
      ensures Valid()
      ensures old(addr) + |data| > dump.Length ==>
        && error == Some(RANGE_ERROR)
        && addr == old(addr) && packets == old(packets) && !done
        && dump[..] == old(dump[..]) && port.onReceive == old(port.onReceive)
      ensures old(addr) + |data| <= dump.Length ==>
        && error.None?
        && packets == old(packets) + [data] && addr == old(addr) + |data|
        && dump[..] == old(dump[..addr]) + data + old(dump[addr + |data|..])
        && (done <==> addr == dump.Length)
        && port.onReceive == (if done then SerialEcho else old(port.onReceive))
      ensures done ==> dump[..] == Concat(packets)
    {
      if addr + |data| > dump.Length {
        return Some(RANGE_ERROR);
      }
      CopyAt(dump, addr, data);
      ConcatSnoc(packets, data);
      packets := packets + [data];
      addr := addr + |data|;
      assert dump[..addr] == Concat(packets);
      error := None;
      if addr >= dump.Length {
        done := true;
        port.onReceive := SerialEcho;
        assert dump[..] == dump[..addr];
      }
    }
  }

  // ---------------------------------------------------------------------------
  // The page

  /** index.js's module-level state: the selected port, the handshake text received so far,
      and the receiver lines (the current line is the last one). */
  class App {
    var port: Port?
    var firstData: string
    var lines: seq<string>

    constructor ()
      ensures port == null && firstData == "" && lines == []
    {
      port := null;
      firstData := "";
      lines := [];
    }

    /** Selecting a port (the first known device, or the one the user picks) and connect:
        after the port's connect, the handshake starts over with the version check as the
        receive handler. */
    method Connect(p: Port, configuration: Option<seq<Interface>>)
      requires p.Valid()
      modifies this`port, this`firstData, p, p.outBuffer
      ensures port == p && p.Valid() && firstData == "" && p.onReceive == Serial.VersionCheck
      ensures configuration.None? ==>
        && p.Found() == old(p.Found()) && p.claimed == old(p.claimed)
        && p.transfers == old(p.transfers) && p.outBuffer[..] == old(p.outBuffer[..])
      ensures configuration.Some? ==>
        && p.Found() == AfterInterfaces(old(p.Found()), configuration.value) && p.claimed
        && p.outBuffer[0] == 'D' as int && p.outBuffer[1..] == old(p.outBuffer[1..])
        && p.transfers == old(p.transfers) + [Transfer(p.endpointOut, p.outBuffer[..])]
    {
      port := p;
      p.Connect(configuration);
      firstData := "";
      p.onReceive := Serial.VersionCheck;
    }

    /** disconnect: the port's disconnect is started and the port is forgotten. */
    method Disconnect()
      requires port != null
      modifies this`port, port`claimed
      ensures port == null && !old(port).claimed
    {
      port.Disconnect();
      port := null;
    }

    /** appendLines, with the receiver's div elements replaced by the list of their texts. */
    method AppendLines(text: string)
      modifies this`lines
      ensures lines == Appended(old(lines), text)
    {
      var parts := Split(text, '\r');
      var i := 0;
      if |lines| > 0 {
        lines := lines[..|lines| - 1] + [lines[|lines| - 1] + parts[0]];
        i := 1;
      }
      ghost var start := i;
      ghost var base := lines;
      while i < |parts|
        invariant start <= i <= |parts|
        invariant lines == base + parts[start..i]
      {
        lines := lines + [parts[i]];
        i := i + 1;
      }
      assert parts[start..] == parts[start..i];
      if start == 0 {
        assert parts[0..] == parts;
      }
    }

    /** serialEcho: decode the packet and append it to the receiver lines. */
    method SerialEcho(data: seq<byte>)
      modifies this`lines
      ensures lines == Appended(old(lines), Decode(data))
    {
      AppendLines(Decode(data));
    }

    /** versionCheck: accumulate the decoded text until the '\0' after the device's version;
        on a match echo whatever followed and switch to the echo handler, otherwise
        disconnect. While no '\0' has arrived nothing else changes (the 200 ms timeout that
        would then disconnect is outside the model). */
    method VersionCheck(data: seq<byte>)
      requires port != null
      modifies this`firstData, this`lines, this`port, port`onReceive, port`claimed
      ensures firstData == old(firstData) + Decode(data)
      ensures HandshakeOf(firstData).Waiting? ==>
        && port == old(port) && port.onReceive == old(port.onReceive) && port.claimed == old(port.claimed)
        && lines == old(lines)
      ensures HandshakeOf(firstData).Accepted? ==>
        && port == old(port) && port.onReceive == Serial.SerialEcho && port.claimed == old(port.claimed)
        && lines == (if |HandshakeOf(firstData).more| > 0 then Appended(old(lines), HandshakeOf(firstData).more) else old(lines))
      ensures HandshakeOf(firstData).Rejected? ==>
        && port == null && !old(port).claimed && old(port).onReceive == old(port.onReceive)
        && lines == old(lines)
    {
      firstData := firstData + Decode(data);
      var end := IndexOf(firstData, '\0');
      if end >= 0 {
        var receivedVersion := ParseLeadingInt(firstData[..end]);
        if receivedVersion == Some(PROTOCOL_VERSION) {
          var moreText := firstData[end + 1..];
          assert HandshakeOf(firstData) == Accepted(moreText);
          if |moreText| > 0 {
            AppendLines(moreText);
          }
          port.onReceive := Serial.SerialEcho;
        } else {
          assert HandshakeOf(firstData) == Rejected(receivedVersion);
          Disconnect();
        }
      } else {
        assert HandshakeOf(firstData) == Waiting;
      }
    }

    /** The flash-upload handler. With no file nothing happens; a file of odd length cannot be
        viewed as 16-bit words and throws; otherwise the trailing PAD words are cut and the
        padded "P<word count>" command is sent, then the remaining words' bytes in one
        transfer. Both transfers go to the port's out endpoint. */
    method FlashUpload(files: Option<seq<seq<byte>>>) returns (error: Option<string>)
      requires port != null && port.Valid()
      modifies port`transfers, port.outBuffer
      ensures files.None? || |files.value| == 0 ==>
        error.None? && port.transfers == old(port.transfers) && port.outBuffer[..] == old(port.outBuffer[..])
      ensures files.Some? && |files.value| > 0 && |files.value[0]| % 2 == 1 ==>
        error == Some(RANGE_ERROR) && port.transfers == old(port.transfers) && port.outBuffer[..] == old(port.outBuffer[..])
      ensures files.Some? && |files.value| > 0 && |files.value[0]| % 2 == 0 ==>
        var words := Unpad(Words(files.value[0]));
        var command := PadCommand("P" + DecimalString(|words|));
        && IsAscii(command)
        && error.None?
        && port.transfers == old(port.transfers) +
             [Transfer(port.endpointOut, Codes(command)), Transfer(port.endpointOut, WordBytes(words))]
        && port.outBuffer[..] == Codes(command)
    {
      if files.None? || |files.value| == 0 {
        return None;
      }
      var file := files.value[0];
      if |file| % 2 == 1 {
        return Some(RANGE_ERROR);
      }
      var buffer := Words(file);
      var lastWord := FindLastNonPad(buffer);
      if lastWord >= 0 {
        buffer := buffer[..lastWord + 1];
      }
      assert buffer == Unpad(Words(file));
      var count := "P" + DecimalString(|buffer|);
      DecimalIsAscii(|buffer|);
      assert IsAscii(count);
      PaddedCommandFillsBuffer(count);
      SendCommandThen(PadCommand(count), WordBytes(buffer));
      error := None;
    }

    /** The SRAM-upload handler: a save file is sent, after the padded "Ps" command, only when
        it is exactly SRAM_SIZE bytes; otherwise nothing is sent. */
    method SramUpload(files: Option<seq<seq<byte>>>)
      requires port != null && port.Valid()
      modifies port`transfers, port.outBuffer
      ensures files.None? || |files.value| == 0 || |files.value[0]| != SRAM_SIZE ==>
        port.transfers == old(port.transfers) && port.outBuffer[..] == old(port.outBuffer[..])
      ensures files.Some? && |files.value| > 0 && |files.value[0]| == SRAM_SIZE ==>
        && IsAscii(PadCommand("Ps"))
        && port.transfers == old(port.transfers) +
             [Transfer(port.endpointOut, Codes(PadCommand("Ps"))), Transfer(port.endpointOut, files.value[0])]
        && port.outBuffer[..] == Codes(PadCommand("Ps"))
    {
      if files.None? || |files.value| == 0 {
        return;
      }
      var buffer := files.value[0];
      if |buffer| != SRAM_SIZE {
        return;
      }
      PaddedCommandFillsBuffer("Ps");
      SendCommandThen(PadCommand("Ps"), buffer);
    }

    /** The two sends of an upload: a command that fills the whole shared buffer, then the
        payload; the command goes out as exactly its codes. */
    method SendCommandThen(command: string, payload: seq<byte>)
      requires port != null && port.Valid()
      requires |command| == BUFSIZE && IsAscii(command) && EncodeInto(command, BUFSIZE) == Codes(command)
      modifies port`transfers, port.outBuffer
      ensures port.transfers == old(port.transfers) +
        [Transfer(port.endpointOut, Codes(command)), Transfer(port.endpointOut, payload)]
      ensures port.outBuffer[..] == Codes(command)
    {
      ghost var before := port.transfers;
      port.Send(Text(command));
      OverwrittenBuffer(port.outBuffer[..], EncodeInto(command, BUFSIZE));
      ghost var between := port.transfers;
      assert between == before + [Transfer(port.endpointOut, Codes(command))];
      port.Send(Data(payload));
      assert port.transfers == between + [Transfer(port.endpointOut, payload)];
    }

    /** download: a zero-filled buffer of the requested size, the download receiver installed
        as the port's handler, and the command sent. */
    method StartDownload(size: nat, command: string) returns (d: Download)
      requires port != null && port.Valid()
      modifies port`onReceive, port`transfers, port.outBuffer
      ensures fresh(d) && fresh(d.dump) && d.Valid() && d.dump.Length == size
      ensures forall i :: 0 <= i < size ==> d.dump[i] == 0
      ensures d.addr == 0 && !d.done && d.packets == []
      ensures port.onReceive == DownloadReceive
      ensures var e := EncodeInto(command, BUFSIZE);
        && port.outBuffer[..|e|] == e && port.outBuffer[|e|..] == old(port.outBuffer[..])[|e|..]
        && port.transfers == old(port.transfers) + [Transfer(port.endpointOut, port.outBuffer[..])]
    {
      d := new Download(size);
      port.onReceive := DownloadReceive;
      port.Send(Text(command));
    }

    /** The flash-download button: 2^20 words, 2 MiB. */
    method FlashDownload() returns (d: Download)
      requires port != null && port.Valid()
      modifies port`onReceive, port`transfers, port.outBuffer
      ensures fresh(d) && fresh(d.dump) && d.Valid() && d.dump.Length == FLASH_DOWNLOAD_SIZE
      ensures d.addr == 0 && !d.done && port.onReceive == DownloadReceive
      ensures port.transfers == old(port.transfers) + [Transfer(port.endpointOut, port.outBuffer[..])]
    {
      d := StartDownload(FLASH_DOWNLOAD_SIZE, FLASH_DOWNLOAD_COMMAND);
    }

    /** The SRAM-download button: SRAM_SIZE bytes. */
    method SramDownload() returns (d: Download)
      requires port != null && port.Valid()
      modifies port`onReceive, port`transfers, port.outBuffer
      ensures fresh(d) && fresh(d.dump) && d.Valid() && d.dump.Length == SRAM_SIZE
      ensures d.addr == 0 && !d.done && port.onReceive == DownloadReceive
      ensures port.transfers == old(port.transfers) + [Transfer(port.endpointOut, port.outBuffer[..])]
    {
      d := StartDownload(SRAM_SIZE, SRAM_DOWNLOAD_COMMAND);
    }
  }
}
