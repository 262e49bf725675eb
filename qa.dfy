/** The comparison helpers of the programmer's QA page (flash-programmer/www/src/qa.js):
    buffers filled with one byte, the byte-for-byte equality check that names the first
    differing offset, the two blank checks, and the pass/fail record a test leaves. */
module Qa {
  import opened Base
  import opened Text
  import Host

  /** The first block of flash the blank check reads: 32 KiB. */
  const BLOCK_SIZE: nat := 32 * 1024
  const PASS_MARK: string := " ✅"
  const FAIL_MARK: string := " ❌"

  const SIZES_DIFFER: string := "Sizes differ"
  const MISMATCH_PREFIX: string := "Mismatch at offset 0x"

  /** fillWith: a new buffer of `size` bytes, each `value` (0xFF unless given). */
  method FillWith(size: nat, value: byte := 0xFF) returns (buffer: array<byte>)
    ensures fresh(buffer) && buffer.Length == size
    ensures forall i :: 0 <= i < size ==> buffer[i] == value
  {
    buffer := new byte[size];
    var i := 0;
    while i < size
      invariant 0 <= i <= size
      invariant forall k :: 0 <= k < i ==> buffer[k] == value
    {
      buffer[i] := value;
      i := i + 1;
    }
  }

  /** How a check ends: it returns, or it throws an Error with a message. */
  datatype Outcome = Passed | Failed(message: string)

  /** The lowest offset at which two buffers of the same length differ. */
  function FirstMismatch(a: seq<byte>, b: seq<byte>): (i: nat)
    requires |a| == |b| && a != b
    ensures i < |a| && a[i] != b[i] && a[..i] == b[..i]
  {
    if a[0] != b[0] then 0
    else
      assert a[1..] != b[1..] by { assert a == [a[0]] + a[1..] && b == [b[0]] + b[1..]; }
      var k := FirstMismatch(a[1..], b[1..]);
      assert a[..k + 1] == [a[0]] + a[1..][..k];
      assert b[..k + 1] == [b[0]] + b[1..][..k];
      k + 1
  }

  function MismatchMessage(offset: nat): string {
    MISMATCH_PREFIX + HexString(offset)
  }

  /** assertEqual: passes exactly when the buffers are equal; a length difference is reported
      before any byte is compared; otherwise the error names the first differing offset. */
  method AssertEqual(in1: seq<byte>, in2: seq<byte>) returns (r: Outcome)
    ensures r.Passed? <==> in1 == in2
    ensures |in1| != |in2| ==> r == Failed(SIZES_DIFFER)
    ensures |in1| == |in2| && in1 != in2 ==> r == Failed(MismatchMessage(FirstMismatch(in1, in2)))
  {
    if |in1| != |in2| {
      return Failed(SIZES_DIFFER);
    }
    var i := 0;
    while i < |in1|
      invariant 0 <= i <= |in1|
      invariant in1[..i] == in2[..i]
    {
      if in1[i] != in2[i] {
        FirstMismatchIsUnique(in1, in2, i);
        return Failed(MismatchMessage(i));
      }
      assert in1[..i + 1] == in1[..i] + [in1[i]];
      assert in2[..i + 1] == in2[..i] + [in2[i]];
      i := i + 1;
    }
    assert in1 == in1[..i] && in2 == in2[..i];
    return Passed;
  }

  /** Any offset with equal bytes before it and differing bytes at it is the first mismatch. */
  lemma FirstMismatchIsUnique(a: seq<byte>, b: seq<byte>, i: nat)
    requires |a| == |b| && i < |a| && a[..i] == b[..i] && a[i] != b[i]
    ensures FirstMismatch(a, b) == i
  {
    var j := FirstMismatch(a, b);
    forall k | 0 <= k < i ensures a[k] == b[k] {
      assert a[..i][k] == b[..i][k];
    }
    forall k | 0 <= k < j ensures a[k] == b[k] {
      assert a[..j][k] == b[..j][k];
    }
  }

  /** The offset in a mismatch message reads back, in hexadecimal, as the offset. */
  lemma MismatchMessageNamesOffset(offset: nat)
    ensures |MismatchMessage(offset)| > |MISMATCH_PREFIX|
    ensures MismatchMessage(offset)[..|MISMATCH_PREFIX|] == MISMATCH_PREFIX
    ensures var digits := MismatchMessage(offset)[|MISMATCH_PREFIX|..];
      AllDigitsOf(digits, 16) && NumeralValue(digits, 16) == offset
  {
    var m := MismatchMessage(offset);
    assert m[|MISMATCH_PREFIX|..] == HexString(offset);
    NumeralRoundTrip(offset, 16);
  }

  /** A buffer of `size` bytes of 0xFF, as a value. */
  predicate IsBlank(data: seq<byte>, size: nat) {
    |data| == size && forall i :: 0 <= i < |data| ==> data[i] == 0xFF
  }

  /** assertFlashFirstBlockBlank, on the first block as downloaded: passes exactly when it is
      BLOCK_SIZE bytes of 0xFF. */
  method AssertFlashFirstBlockBlank(downloaded: seq<byte>) returns (r: Outcome)
    ensures r.Passed? <==> IsBlank(downloaded, BLOCK_SIZE)
  {
    var expected := FillWith(BLOCK_SIZE, 0xFF);
    r := AssertEqual(downloaded, expected[..]);
  }

  /** assertSramBlank, on the SRAM as downloaded: passes exactly when it is SRAM_SIZE bytes of
      0xFF. */
  method AssertSramBlank(downloaded: seq<byte>) returns (r: Outcome)
    ensures r.Passed? <==> IsBlank(downloaded, Host.SRAM_SIZE)
  {
    var expected := FillWith(Host.SRAM_SIZE, 0xFF);
    r := AssertEqual(downloaded, expected[..]);
  }

  /** What runTest leaves behind: the lines it logs, and the button's text with the
      pass or fail mark added when there is a button. */
  datatype Report = Report(logged: seq<string>, target: Option<string>)

  /** runTest: log the name, then PASS or the error, and mark the button; an error never
      propagates past it. */
  function RunTest(name: string, outcome: Outcome, target: Option<string>): (r: Report)
    ensures |r.logged| == 2 && r.logged[0] == name + "\r"
    ensures outcome.Passed? <==> r.logged[1] == "\rPASS\r"
    ensures outcome.Failed? ==> r.logged[1] == "\rFAIL: Error: " + outcome.message + "\r"
    ensures r.target.Some? <==> target.Some?
    ensures target.Some? ==> r.target.value == target.value + (if outcome.Passed? then PASS_MARK else FAIL_MARK)
  {
    var line := if outcome.Passed? then "\rPASS\r" else "\rFAIL: Error: " + outcome.message + "\r";
    assert outcome.Failed? ==> |line| > 6;
    var mark := if outcome.Passed? then PASS_MARK else FAIL_MARK;
    Report([name + "\r", line], if target.Some? then Some(target.value + mark) else None)
  }
}
