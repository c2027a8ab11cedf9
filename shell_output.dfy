/**
 * The receiver that collects what a shell command prints on the device: a text
 * buffer the bridge appends decoded chunks of bytes to, emptied before each command.
 */
module ShellOutput {

  /** A Java byte: signed, eight bits. */
  newtype int8 = x: int | -128 <= x < 128

  /** The character a byte stands for when one byte is one character (ISO-8859-1). */
  function ByteChar(b: int8): (c: char)
    ensures c as int == (b as int) % 256
  {
    ((b as int) % 256) as char
  }

  /** The text the bytes stand for, one character per byte. */
  function Decode(bytes: seq<int8>): (s: string)
    ensures |s| == |bytes|
    ensures forall k :: 0 <= k < |bytes| ==> s[k] == ByteChar(bytes[k])
  {
    seq(|bytes|, k requires 0 <= k < |bytes| => ByteChar(bytes[k]))
  }

  /** The byte a character below 256 is written as: its code, as a signed byte. */
  function CharByte(c: char): (b: int8)
    requires c as int < 256
  {
    if c as int < 128 then c as int as int8 else (c as int - 256) as int8
  }

  /** The text written one byte per character. */
  function Encode(s: string): (bytes: seq<int8>)
    requires forall k :: 0 <= k < |s| ==> s[k] as int < 256
    ensures |bytes| == |s|
  {
    seq(|s|, k requires 0 <= k < |s| => CharByte(s[k]))
  }

  /** Every byte survives decoding: encoding the decoded text gives the bytes back. */
  lemma EncodeDecode(bytes: seq<int8>)
    ensures forall k :: 0 <= k < |bytes| ==> Decode(bytes)[k] as int < 256
    ensures Encode(Decode(bytes)) == bytes
  {
    var s := Decode(bytes);
    forall k | 0 <= k < |bytes|
      ensures Encode(s)[k] == bytes[k]
    {
      assert s[k] == ByteChar(bytes[k]);
    }
  }

  /** Every character below 256 survives encoding. */
  lemma DecodeEncode(s: string)
    requires forall k :: 0 <= k < |s| ==> s[k] as int < 256
    ensures Decode(Encode(s)) == s
  {
  }

  /** Decoding works chunk by chunk, so the text does not depend on how the output is split. */
  lemma DecodeConcat(a: seq<int8>, b: seq<int8>)
    ensures Decode(a + b) == Decode(a) + Decode(b)
  {
    var l, r := Decode(a + b), Decode(a) + Decode(b);
    forall k | 0 <= k < |a + b|
      ensures l[k] == r[k]
    {
      if k < |a| {
        assert (a + b)[k] == a[k];
      } else {
        assert (a + b)[k] == b[k - |a|];
      }
    }
  }

  /** The receiver's buffer (a StringBuffer in the plug-in). */
  class StringShellOutputReceiver {
    var result: string

    constructor ()
      ensures result == []
    {
      result := [];
    }

    /** Empties the buffer before the next command. */
    method Reset()
      modifies this
      ensures result == []
    {
      result := [];
    }

    /** The text collected since the last reset. */
    method GetResult() returns (s: string)
      ensures s == result
    {
      s := result;
    }

    /** Appends the characters of `bytes[i..i + n]`; what was there stays. */
    method AddOutput(bytes: array<int8>, i: int, n: int)
      requires 0 <= i && 0 <= n && i + n <= bytes.Length
      modifies this
      ensures result == old(result) + Decode(bytes[i..i + n])
      ensures old(result) <= result && |result| == |old(result)| + n
    {
      result := result + Decode(bytes[i..i + n]);
    }

    /** Nothing is held back, so there is nothing to flush. */
    method Flush()
    {
    }

    /** The receiver never asks the command to stop. */
    method IsCancelled() returns (cancelled: bool)
      ensures !cancelled
    {
      cancelled := false;
    }
  }

  /**
   * A command's output, however it arrives in two chunks after a reset, reads
   * back as the decoded bytes of the whole output.
   */
  method ReceiveTwoChunks(rcv: StringShellOutputReceiver, output: array<int8>, split: int) returns (s: string)
    requires 0 <= split <= output.Length
    modifies rcv
    ensures s == Decode(output[..])
  {
    rcv.Reset();
    rcv.AddOutput(output, 0, split);
    rcv.AddOutput(output, split, output.Length - split);
    s := rcv.GetResult();
    assert output[0..split] + output[split..output.Length] == output[..];
    DecodeConcat(output[0..split], output[split..output.Length]);
  }
}
