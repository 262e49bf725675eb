# loopycart flash programmer: a Dafny model of its core

The loopycart flash programmer reads and writes the flash and SRAM of a Casio Loopy
cartridge. A Raspberry Pi Pico with a TCA9539 I2C port expander does the work, and a
browser page drives it over WebUSB. This project models the page's logic and the
port-expander driver, and proves what that logic promises:

- **Cartridge header** (`cart.js`, module `Cart`):
  - classifying the magic word at offset 0;
  - the in-place 16-bit byte swap;
  - the internal CRC at offset 8;
  - the cartridge database, keyed by the CRC's "%08x" spelling and built from comma-separated text.
- **Host commands** (`index.js`, module `Host`). This is the protocol revision whose flash upload sends `P<words>`. It covers:
  - 64-byte command padding;
  - un-padding a flash upload;
  - the SRAM size gate;
  - the `\0`-terminated protocol-version handshake;
  - the `\r`-split receiver log;
  - assembling a download into a fixed buffer behind a write cursor.
- **Transport** (`serial.js`, module `Serial`):
  - a `Port` that finds its vendor interface and bulk endpoints in the USB descriptors;
  - the swappable receive handler;
  - sending strings through the one 64-byte buffer that every port shares.
- **TCA9539 driver** (`TCA9539.h` and `TCA9539.cpp`, modules `Tca9539Registers` and `Tca9539`):
  - the 16-bit register union;
  - the register addresses and enums;
  - the shadow registers, updated per pin or per word and written over I2C. The bus is an append-only trace of events.
- **QA helpers** (`qa.js`, module `Qa`):
  - `fillWith`;
  - `assertEqual` with its first-mismatch message;
  - the two blank checks;
  - what `runTest` records.

Two further modules collect what the JavaScript built-ins do, as far as the core depends on them:

- `Base` covers the typed-array element types, DataView reads and the Uint16Array view of a byte buffer.
- `Text` covers `indexOf`, `split`/`join`, `repeat`, `toString(10/16)`, `sprintf("%08x")`, `parseInt` on leading digits, `toLowerCase` on ASCII letters, `trim` (with ECMAScript's full white-space and line-terminator set), `TextEncoder.encodeInto` and `TextDecoder.decode`.

State that the source updates in place is a class:

- a WebUSB port is `Serial.Port`;
- the page's module-level variables are `Host.App`;
- the state a download's handler closes over is `Host.Download`;
- the port expander is `Tca9539.Driver`.

A method's contract ties its new state to a function of the old state. The lemmas then prove the source's promises about those functions.

Where the code and its description disagree, the model follows the code:

- **Un-padding** a flash upload that is nothing but 0xFFFF words leaves it as it is; it is not emptied. `findLastIndex` returns -1 and the cut is skipped.
- **`swapBytes` on an odd length** zeroes the last byte, since it reads `undefined` past the end. `Cart.Swapped` states this, and `Cart.SwapTwice` is proved for even lengths only.
- **A flash upload of odd length** throws a RangeError when the `Uint16Array` is made, before anything is sent.
- **The database loader throws** a TypeError (`toLowerCase` of `undefined`) on a record line with fewer than five comma-separated fields. The module then does not load.

## Model

| member | source | states |
|---|---|---|
| Base.GetUint16 | flash-programmer/www/src/cart.js:33-35 | the low and high byte of the result are the two bytes at the offset, in the order the endianness flag selects |
| Base.GetUint32 | flash-programmer/www/src/cart.js:12-13 | the result's big-endian bytes are the four bytes at the offset, reversed when little-endian is asked for |
| Base.BigEndianBytesInjective | flash-programmer/www/src/cart.js:18 | two 32-bit values with the same big-endian bytes are equal |
| Base.Words | flash-programmer/www/src/index.js:130 | the Uint16Array view of an even-length buffer has half as many words, word i being bytes 2i and 2i+1 read little-endian |
| Base.WordBytes | flash-programmer/www/src/index.js:141 | the bytes sent for a word array: twice as many, each word low byte first |
| Base.WordsRoundTrip | flash-programmer/www/src/index.js:130 | the bytes behind the word view of a buffer are the buffer |
| Base.WordBytesPrefix | flash-programmer/www/src/index.js:135 | the subarray of the first n words holds the first 2n bytes |
| Text.IndexOf | flash-programmer/www/src/index.js:35 | -1 exactly when the character is absent, otherwise its first position |
| Text.IndexOfAfterFreePrefix | flash-programmer/www/src/index.js:35 | the first '\0' after a prefix free of it is found at the prefix's length |
| Text.Split | flash-programmer/www/src/index.js:66 | at least one piece, and no piece contains the separator |
| Text.JoinSplit | flash-programmer/www/src/index.js:66 | joining the pieces of a split with the separator gives back the text |
| Text.SplitJoin | flash-programmer/www/src/index.js:66 | splitting the join of separator-free pieces gives back the pieces |
| Text.JoinAppend | flash-programmer/www/src/index.js:69-71 | the join of two lists of pieces is their joins with one separator between |
| Text.JoinExtendLast | flash-programmer/www/src/index.js:68 | extending the last piece extends the join by the same text |
| Text.Repeat | flash-programmer/www/src/index.js:22 | n copies of the character |
| Text.Numeral | flash-programmer/www/src/qa.js:33 | a non-empty string of digits of the radix, with no leading zero when the number is positive |
| Text.NumeralRoundTrip | flash-programmer/www/src/qa.js:33 | reading a printed number back in the same radix gives the number |
| Text.LeadingZeros | flash-programmer/www/src/cart.js:18 | zero padding keeps a numeral's value |
| Text.NumeralLength | flash-programmer/www/src/index.js:140 | a number below radix^k has at most k digits |
| Text.DecimalString | flash-programmer/www/src/index.js:140 | the template-literal decimal spelling is non-empty and all decimal digits |
| Text.HexString | flash-programmer/www/src/qa.js:33 | toString(16) is non-empty and all lower-case hex digits |
| Text.Hex8 | flash-programmer/www/src/cart.js:18 | "%08x" is exactly eight lower-case hex digits whose value is the number |
| Text.Hex8Injective | flash-programmer/www/src/cart.js:18 | different 32-bit values never share a "%08x" key |
| Text.LeadingDigits | flash-programmer/www/src/index.js:37 | the length of the longest all-digit prefix: every position before it is a digit, the one at it is not |
| Text.ParseLeadingInt | flash-programmer/www/src/index.js:37 | parseInt is NaN exactly when the text does not start with a digit |
| Text.ParseDecimal | flash-programmer/www/src/index.js:37 | parseInt reads back a decimal numeral followed by a non-digit or nothing |
| Text.ToLower | flash-programmer/www/src/cart.js:7 | same length, no upper-case ASCII letter left |
| Text.IsWhitespace | flash-programmer/www/src/cart.js:6 | the characters `trim` removes: ECMAScript's WhiteSpace (tab, vertical tab, form feed, the byte-order mark, the Zs space separators) and LineTerminator (LF, CR, U+2028, U+2029) |
| Text.IsBlank | flash-programmer/www/src/cart.js:6 | every character of the line is white space |
| Text.Trim | flash-programmer/www/src/cart.js:6 | the slice of the line between its leading and trailing white space: only white space is removed, and the result neither starts nor ends with white space |
| Text.TrimBlank | flash-programmer/www/src/cart.js:6 | `trim().length > 0` is false exactly when the line is blank |
| Text.Utf8 | flash-programmer/www/src/serial.js:118 | one to four bytes per character, a single byte exactly for ASCII, and that byte is the code |
| Text.EncodeInto | flash-programmer/www/src/serial.js:118 | encodeInto never writes more bytes than the destination holds |
| Text.EncodeIntoAscii | flash-programmer/www/src/serial.js:118 | ASCII text fills min(length, room) bytes with its character codes |
| Text.Decode | flash-programmer/www/src/index.js:26 | one character per byte, an ASCII byte decoding to its own code |
| Cart.HeaderMagic.Code | flash-programmer/www/src/cart.js:23-26 | every classification is one of the exported numbers 0 to 3 |
| Cart.GetCartHeaderMagic | flash-programmer/www/src/cart.js:28-42 | throws exactly on buffers shorter than 4 bytes; OK exactly when the first bytes are 0E 00 00 80; LITTLE_ENDIAN exactly for 00 0E 80 00; BLANK exactly for FF FF FF FF; priority OK, LE, BLANK |
| Cart.Swapped | flash-programmer/www/src/cart.js:44-53 | same length, bytes 2k and 2k+1 exchanged for every pair, the odd last byte zeroed |
| Cart.SwapBytes | flash-programmer/www/src/cart.js:44-53 | the in-place loop leaves the buffer equal to Swapped of its old contents |
| Cart.SwapTwice | flash-programmer/www/src/cart.js:44-53 | on an even length, swapping twice restores the buffer |
| Cart.SwapClassification | flash-programmer/www/src/cart.js:33-53 | a LITTLE_ENDIAN buffer reads OK after the swap, an OK one LITTLE_ENDIAN, a BLANK one stays BLANK |
| Cart.GetInternalCrc | flash-programmer/www/src/cart.js:10-14 | throws exactly below 12 bytes; otherwise the value spells bytes 8 to 11 big-endian, or reversed when little-endian |
| Cart.InternalCrcByteOrders | flash-programmer/www/src/cart.js:10-14 | the two byte orders give byte-reversed values |
| Cart.GetCartData | flash-programmer/www/src/cart.js:16-21 | throws exactly below 12 bytes; returns the entry under the key that spells the CRC, and nothing exactly when no key does |
| Cart.NumeralValueInjective | flash-programmer/www/src/cart.js:18 | two digit strings of one length and one value are equal, so at most one key matches |
| Cart.CartDataReadsOnlyCrc | flash-programmer/www/src/cart.js:16-21 | the lookup depends on bytes 8 to 11 only |
| Cart.Records | flash-programmer/www/src/cart.js:6 | the kept lines are exactly the lines that are neither comments nor blank |
| Cart.IsRecordLine | flash-programmer/www/src/cart.js:6 | a line is kept exactly when it does not start with '#' and some character of it is not white space |
| Cart.Load | flash-programmer/www/src/cart.js:5-8 | the only error the loader raises is TypeError |
| Cart.BuildDatabase | flash-programmer/www/src/cart.js:5-8 | the loop over the CSV text's lines builds Load of its record lines |
| Cart.LoadRecords | flash-programmer/www/src/cart.js:6-8 | the loop over the record lines equals Load of them: the first line with fewer than five fields throws, otherwise each entry is filed under its lowercased fifth field |
| Cart.LoadThrowsIff | flash-programmer/www/src/cart.js:6-7 | loading fails exactly when some record has fewer than five fields |
| Cart.LoadLastWins | flash-programmer/www/src/cart.js:7 | a key is present exactly when some record carries it, and it maps to the entry of the last such record |
| Cart.LoadKeyPresent | flash-programmer/www/src/cart.js:7 | a key is present exactly when some record's lower-cased fifth field is that key |
| Cart.LoadLastEntry | flash-programmer/www/src/cart.js:7 | a present key maps to the entry of a record that carries it and that no later record overrides |
| Cart.LoadKeysLowerCase | flash-programmer/www/src/cart.js:7 | every key is lower case |
| Serial.EndpointsLastWins | flash-programmer/www/src/serial.js:56-63 | after the endpoint loop each direction holds the number of its last endpoint, or its old value if none |
| Serial.AlternatesLastWins | flash-programmer/www/src/serial.js:53-65 | the interface number is set exactly when a vendor-class alternate exists; the endpoints are the last of the vendor-class alternates' endpoints |
| Serial.DiscoveryLastWins | flash-programmer/www/src/serial.js:51-66 | discovery yields the last vendor interface and the last in and out endpoint of all vendor-class alternates, each defaulting to its previous value |
| Serial.VendorEndpointsFromVendorClass | flash-programmer/www/src/serial.js:54-56 | every endpoint that counts comes from an alternate of class 0xFF, so other classes never matter |
| Serial.Port.constructor | flash-programmer/www/src/serial.js:28-38 | interface and endpoint numbers 0, the no-op handler, nothing sent |
| Serial.Port.Discover | flash-programmer/www/src/serial.js:51-66 | the three nested loops leave the numbers that the last-match-wins fold gives |
| Serial.Port.Connect | flash-programmer/www/src/serial.js:44-100 | with no configuration nothing else happens; otherwise discovery, the claim, and "D" sent through the shared buffer with its other 63 bytes kept |
| Serial.Port.Disconnect | flash-programmer/www/src/serial.js:102-112 | the interface is released |
| Serial.Port.Send | flash-programmer/www/src/serial.js:114-122 | a string overwrites only its encoding's prefix of the shared buffer and all 64 bytes go out; other data goes out unchanged |
| Serial.OverwrittenBuffer | flash-programmer/www/src/serial.js:118-119 | an encoding as long as the buffer replaces all of it |
| Serial.AsciiSendPrefix | flash-programmer/www/src/serial.js:118 | ASCII text overwrites min(length, 64) bytes with its codes |
| Host.PadCommand | flash-programmer/www/src/index.js:21-23 | always 64 characters; a short command followed by '\r' only; a long one cut to its first 64 |
| Host.Codes | flash-programmer/www/src/index.js:140 | one byte per ASCII character |
| Host.PaddedCommandFillsBuffer | flash-programmer/www/src/index.js:140 | a padded ASCII command is ASCII and encodes to exactly its 64 codes, so no stale byte goes with it |
| Host.DecimalIsAscii | flash-programmer/www/src/index.js:140 | a word count prints as ASCII decimal digits |
| Host.WordCountCommand | flash-programmer/www/src/index.js:140 | the padded command starts with 'P' and its rest parses to the word count |
| Host.FindLastNonPad | flash-programmer/www/src/index.js:133 | the index of the last word that is not 0xFFFF, or -1, with only 0xFFFF after it |
| Host.Unpad | flash-programmer/www/src/index.js:132-136 | a prefix followed only by 0xFFFF words; an all-0xFFFF buffer unchanged; otherwise it ends in a word that is not 0xFFFF |
| Host.UnpadPadded | flash-programmer/www/src/index.js:132-136 | un-padding removes exactly a run of 0xFFFF added to data that does not end in it |
| Host.UnpadIdempotent | flash-programmer/www/src/index.js:132-136 | un-padding twice is un-padding once |
| Host.UploadIsFilePrefix | flash-programmer/www/src/index.js:130-141 | the uploaded bytes are a prefix of the file and every file byte after them is 0xFF |
| Host.Appended | flash-programmer/www/src/index.js:65-76 | at least one line after; existing lines are never removed and the current line only grows |
| Host.AppendedJoin | flash-programmer/www/src/index.js:65-76 | the receiver lines joined with '\r' read as the old log followed by the text |
| Host.AppendedIsSplit | flash-programmer/www/src/index.js:65-76 | on '\r'-free lines, the new lines are the split of the whole log text |
| Host.AppendedFree | flash-programmer/www/src/index.js:65-76 | no receiver line ever contains '\r' |
| Host.AppendedChunking | flash-programmer/www/src/index.js:65-76 | appending a then b gives the same lines as appending a+b |
| Host.ChunkingOnLines | flash-programmer/www/src/index.js:67-71 | the chunking law when a current line exists |
| Host.AppendedTwiceIsSplit | flash-programmer/www/src/index.js:67-71 | two appends give the split of the old log followed by both texts |
| Host.ChunkingOnEmpty | flash-programmer/www/src/index.js:72-75 | the chunking law when there is no line yet |
| Host.HandshakeOf | flash-programmer/www/src/index.js:34-45 | waiting exactly while no '\0' has arrived; the text to echo is shorter than what was received |
| Host.HandshakeOfReply | flash-programmer/www/src/index.js:32-52 | a reply "version\0more" is accepted exactly when the version is 2, echoing more; otherwise rejected with the version |
| Host.ConcatLength | flash-programmer/www/src/index.js:183 | the concatenated packets are as long as the sum of their lengths |
| Host.ConcatSnoc | flash-programmer/www/src/index.js:182-183 | one more packet appends its bytes to the concatenation and its length to the sum |
| Host.Spliced | flash-programmer/www/src/index.js:180-182 | a buffer agreeing outside a range and holding the packet inside is the old buffer with that range replaced |
| Host.CopyAt | flash-programmer/www/src/index.js:180-182 | the packet lands at the cursor and nothing else changes |
| Host.Download.constructor | flash-programmer/www/src/index.js:176-177 | a zero-filled buffer of the requested size with the cursor at 0 |
| Host.Download.Receive | flash-programmer/www/src/index.js:179-196 | an overflowing packet throws RangeError and changes nothing; otherwise the cursor is the sum of the packet lengths, the buffer starts with the packets in order, and completion (with the echo handler back) happens exactly when the cursor reaches the end |
| Host.App.constructor | flash-programmer/www/src/index.js:17 | no port, no handshake text, no lines |
| Host.App.Connect | flash-programmer/www/src/index.js:80-91 | the port becomes the selected port, the handshake text is cleared and the version check becomes the handler; with no configuration nothing else changes; with one, the interfaces are discovered, the interface is claimed and the buffer, now starting with "D", is sent in one transfer |
| Host.App.Disconnect | flash-programmer/www/src/index.js:93-98 | the port is disconnected and forgotten |
| Host.App.AppendLines | flash-programmer/www/src/index.js:65-78 | the segment loop leaves exactly the Appended lines |
| Host.App.SerialEcho | flash-programmer/www/src/index.js:25-27 | the decoded packet is appended to the log |
| Host.App.VersionCheck | flash-programmer/www/src/index.js:32-52 | text accumulates; no change while waiting; on version 2 the rest is echoed and the echo handler installed; otherwise the port is disconnected |
| Host.App.FlashUpload | flash-programmer/www/src/index.js:124-142 | no file sends nothing; an odd length throws; otherwise the 64-byte "P<word count>" command and then all the un-padded words, in one transfer each, leaving the shared buffer holding the command's codes |
| Host.App.SramUpload | flash-programmer/www/src/index.js:144-159 | only a file of exactly 8192 bytes is sent, after the padded "Ps", which the shared buffer then holds; otherwise the buffer is unchanged |
| Host.App.SendCommandThen | flash-programmer/www/src/index.js:140-141 | the padded command goes out as exactly its codes, then the payload; afterwards the shared buffer holds the command's codes |
| Host.App.StartDownload | flash-programmer/www/src/index.js:174-200 | a zero-filled buffer of the size, the download handler installed, the command sent |
| Host.App.FlashDownload | flash-programmer/www/src/index.js:202-206 | a 2 MiB download started with one send |
| Host.App.SramDownload | flash-programmer/www/src/index.js:207-209 | an 8192-byte download started with one send |
| Tca9539Registers.FromBytes | flash-programmer/pico/TCA9539.h:75-81 | the register whose low and high byte are the given ones |
| Tca9539Registers.WithLow | flash-programmer/pico/TCA9539.h:75-81 | writing `low` keeps `high` |
| Tca9539Registers.WithHigh | flash-programmer/pico/TCA9539.h:75-81 | writing `high` keeps `low` |
| Tca9539Registers.RegisterUnion | flash-programmer/pico/TCA9539.h:75-81 | word = high*256 + low, and the bytes rebuild the register |
| Tca9539Registers.RegisterBytesInjective | flash-programmer/pico/TCA9539.h:75-81 | a register is determined by its two bytes |
| Tca9539Registers.PortAddresses | flash-programmer/pico/TCA9539.h:58-72 | each register's port 0 is at its address and port 1 at the next |
| Tca9539.ValidPin | flash-programmer/pico/TCA9539.cpp:169-171 | a pin is valid exactly when it is below 16 |
| Tca9539.GetBit | flash-programmer/pico/TCA9539.cpp:69-72 | false for an invalid pin |
| Tca9539.SetBit | flash-programmer/pico/TCA9539.cpp:63-67 | an invalid bit leaves the register; a valid bit reads back as the value |
| Tca9539.SetBitMasked | flash-programmer/pico/TCA9539.cpp:63-67 | the other fifteen bits of the word are unchanged |
| Tca9539.SetBitKeepsOthers | flash-programmer/pico/TCA9539.cpp:63-72 | every other bit reads as before |
| Tca9539.SetBitToItself | flash-programmer/pico/TCA9539.cpp:63-72 | setting a bit to its own value changes nothing |
| Tca9539.SetBitTwice | flash-programmer/pico/TCA9539.cpp:63-67 | the second of two sets of one bit wins |
| Tca9539.Driver.Default | flash-programmer/pico/TCA9539.cpp:5-9 | address and pins 0, no bus traffic |
| Tca9539.Driver.WithAddress | flash-programmer/pico/TCA9539.cpp:11-16 | the given address, pins 0 |
| Tca9539.Driver.WithPins | flash-programmer/pico/TCA9539.cpp:18-24 | the given pins and address |
| Tca9539.Driver.SetRegDefaults | flash-programmer/pico/TCA9539.cpp:26-31 | input 0, output 0xFFFF, pol_inv 0, config 0xFFFF: every pin an input driven high |
| Tca9539.Driver.Init | flash-programmer/pico/TCA9539.cpp:39-61 | the bus starts and the registers take their defaults |
| Tca9539.Driver.InitWith | flash-programmer/pico/TCA9539.cpp:33-37 | the address is set, then the same as Init |
| Tca9539.Driver.WriteRegister | flash-programmer/pico/TCA9539.cpp:79-83 | one transmission: command byte, low byte, high byte |
| Tca9539.Driver.SetDir | flash-programmer/pico/TCA9539.cpp:74-84 | an invalid pin changes and sends nothing; a valid one sets the config bit, sends address, low, high, and check_pin_dir then holds |
| Tca9539.Driver.SetPolInv | flash-programmer/pico/TCA9539.cpp:86-96 | the same for the polarity-inversion register |
| Tca9539.Driver.SetPinVal | flash-programmer/pico/TCA9539.cpp:98-108 | the same for the output register |
| Tca9539.Driver.CheckPinDir | flash-programmer/pico/TCA9539.cpp:117-120 | true exactly when the pin is valid and its config bit equals the direction |
| Tca9539.Driver.ReadReg | flash-programmer/pico/TCA9539.cpp:122-131 | above the config address nothing happens; otherwise select, request two bytes, first into low, second into high (0xFF when none arrives) |
| Tca9539.Driver.ReadPinVal | flash-programmer/pico/TCA9539.cpp:110-115 | false without traffic for an invalid pin; otherwise the bit of the freshly read input register |
| Tca9539.Driver.ReadWord | flash-programmer/pico/TCA9539.cpp:135-138 | the first byte received is the low byte |
| Tca9539.Driver.ReadWordBigend | flash-programmer/pico/TCA9539.cpp:140-148 | the first byte received is the high byte |
| Tca9539.Driver.SetWord | flash-programmer/pico/TCA9539.cpp:150-157 | output becomes the word, sent low then high, and the bytes on the wire rebuild the word |
| Tca9539.Driver.SetWordBigend | flash-programmer/pico/TCA9539.cpp:159-166 | output becomes the word, sent high then low, and the bytes on the wire rebuild the word |
| Qa.FillWith | flash-programmer/www/src/qa.js:9-15 | size bytes, each the given value (0xFF by default) |
| Qa.FirstMismatch | flash-programmer/www/src/qa.js:31-34 | a differing position with equal bytes before it |
| Qa.FirstMismatchIsUnique | flash-programmer/www/src/qa.js:31-34 | any position with equal bytes before it and differing bytes at it is the first mismatch |
| Qa.AssertEqual | flash-programmer/www/src/qa.js:25-36 | passes exactly on equal buffers; a length difference is "Sizes differ"; otherwise the message names the lowest differing offset |
| Qa.MismatchMessageNamesOffset | flash-programmer/www/src/qa.js:33 | the message is the prefix followed by hex digits that read back as the offset |
| Qa.AssertFlashFirstBlockBlank | flash-programmer/www/src/qa.js:39-44 | passes exactly when the download is 32 KiB of 0xFF |
| Qa.AssertSramBlank | flash-programmer/www/src/qa.js:46-51 | passes exactly when the download is 8192 bytes of 0xFF |
| Qa.RunTest | flash-programmer/www/src/qa.js:83-93 | logs the name, then PASS exactly on success or FAIL with the error, and marks the button when there is one; nothing is rethrown |

## Left out

- WebUSB and the device are not modelled: `open`, `selectConfiguration`, `claimInterface`, the control transfers, `transferIn`, release and close. Their effects appear only as the `claimed` flag and the `transfers` trace. The configuration descriptors are an input.
- The asynchronous read loop, the disconnect event, `onReceiveError`, promises and `await` ordering are not modelled. A received packet is a call of the handler's method.
- The 200 ms version-check timeout is not modelled. Only the "still waiting for '\0'" state is kept.
- All DOM work is not modelled: `addLine`, `innerHTML`, scrolling, status text, button text and the Blob/anchor save of a finished download. The receiver's lines are a list of strings, and a test's button is its text.
- The fixed-string button sends (`I`, `Sr`, `Sw`, `E`, `E0`, `Es`) and console logging are not modelled. They are direct uses of `Serial.Port.Send`.
- The service worker, `qa/autowipe.js` and `fillRandom` are not modelled: the first two are browser glue, and the last uses `Math.random`.
- The qa.js tests built on `commandWithProgress`, `programFlash`, `programSram` and `sleep` are not modelled; those functions are not in this `index.js`. The same goes for the expected-buffer file inputs.
- Qa.AssertFlashFirstBlockBlank: takes the downloaded bytes as a parameter. The qa.js `download(size, command)` it awaits belongs to a later `index.js` than the one modelled.
- Qa.AssertSramBlank: takes the downloaded bytes as a parameter, for the same reason.
- Arduino hardware is not modelled: the reset pulse, `pinMode`, `delayMicroseconds` and the `TwoWire` handle. The bus is the event trace, and the bytes a read request yields are a parameter.
- Tca9539.Driver.Default: the C++ constructors leave the shadow registers uninitialised, so their contracts promise nothing about them.
- Tca9539.Driver.WithAddress: the same, and the same for Tca9539.Driver.WithPins.
- TextEncoder and TextDecoder beyond ASCII are not modelled. `Text.Utf8` encodes every scalar value, but the contracts speak about ASCII only. Non-ASCII bytes decode to U+FFFD one byte at a time, with no multi-byte decoding.
- `parseInt` is reduced to a parse of leading decimal digits: no whitespace, signs, or `0x` prefix.
- `sprintf-js` is modelled by `Text.Hex8` only. The CSV database file is an input string.
- Host.WordCountCommand: proved for word counts of at most 63 digits, the only ones whose command fits the 64-byte buffer.
- Host.App.FlashDownload: states the single transfer of the shared buffer, not the command bytes it holds. `Host.App.StartDownload` states those as the encoding of the command.
- Host.App.SramDownload: the same as Host.App.FlashDownload.
- Host.App.VersionCheck: requires a selected port. The page only installs the handler on the selected port; with none, the JavaScript would throw a TypeError.
- Host.App.FlashUpload: requires a selected port, for the same reason. Host.App.SramUpload and Host.App.StartDownload do likewise.
- Text.ToLower: lowercases the ASCII letters A-Z only. JavaScript's `toLowerCase` maps every cased letter and can change a string's length. The CRC lookup is unaffected, because `Text.Hex8` keys are ASCII; only a fifth field holding non-ASCII capitals is filed under a different key.
- Serial.Port.constructor: a port takes whatever 64-byte array it is given. The JavaScript has one module-level zero-filled `Uint8Array(64)` that every port shares; the model allows that sharing (two ports on the same array) but does not require it, and does not state that the buffer starts as zeros.
- Strings are sequences of Unicode scalar values, not of UTF-16 code units. `substring`, `length` and `trim` count code units in JavaScript, so Host.PadCommand cuts and pads a command holding a character outside the Basic Multilingual Plane at a different place; every command the page builds is ASCII.
- Cart.Records: states which lines are kept, both ways. It does not state that their order is kept; `Cart.Load` and `Cart.BuildDatabase` use the function itself, so the order still reaches the database.
- The Uint16Array byte offset of a `subarray` is not modelled: an upload's words are a sequence value, and their bytes are `Base.WordBytes`.
- `disconnect` is not awaited in the source. The model treats it as completing at once.
