/** `NetSend` / `NetReceive`: the invasion's share of the world-data packet, written with a
    `BinaryWriter` and read back with a `BinaryReader`. A C# `int` goes on the wire as four
    little-endian two's-complement bytes and a `bool` as one byte (1 or 0); `ReadBoolean`
    takes any non-zero byte as true. `killsNeeded` is not sent. */
module NetSync {
  import opened MachineInts
  import opened Wrappers
  import opened ExampleInvasion

  /** The reader ran out of bytes (`EndOfStreamException`). `written` is the invasion
      state as the throw leaves it: a kill count read before the throw stays assigned. */
  datatype NetError = EndOfStream(written: State)

  /** The unsigned value the four bytes of `x` spell out. */
  function Unsigned(x: Int32): (u: int)
    ensures 0 <= u < TWO_32
    ensures (u - x as int) % TWO_32 == 0
  {
    if x < 0 then x as int + TWO_32 else x as int
  }

  /** `BinaryWriter.Write(int)`. */
  function EncodeInt32(x: Int32): (bs: seq<Byte>)
    ensures |bs| == 4
  {
    var u := Unsigned(x);
    [(u % 0x100) as Byte, (u / 0x100 % 0x100) as Byte,
     (u / 0x1_0000 % 0x100) as Byte, (u / 0x100_0000) as Byte]
  }

  /** `BinaryReader.ReadInt32()` on its next four bytes. */
  function DecodeInt32(bs: seq<Byte>): (x: Int32)
    requires |bs| == 4
  {
    var u := bs[0] as int + 0x100 * bs[1] as int + 0x1_0000 * bs[2] as int + 0x100_0000 * bs[3] as int;
    if u <= INT32_MAX then u as Int32 else (u - TWO_32) as Int32
  }

  /** `BinaryWriter.Write(bool)`. */
  function EncodeBool(b: bool): (bs: seq<Byte>)
    ensures |bs| == 1
    ensures b <==> bs[0] != 0
  {
    [if b then 1 else 0]
  }

  /** `BinaryReader.ReadBoolean()`: any non-zero byte reads as true. */
  function DecodeBool(b: Byte): bool
  {
    b != 0
  }

  /** Four bytes written for an `Int32` read back as that `Int32`. */
  lemma DecodeEncodeInt32(x: Int32)
    ensures DecodeInt32(EncodeInt32(x)) == x
  {
    var u := Unsigned(x);
    var bs := EncodeInt32(x);
    var q2 := u / 0x100 / 0x100;
    assert u / 0x1_0000 == q2;
    assert u / 0x100_0000 == q2 / 0x100;
    assert bs[0] as int + 0x100 * bs[1] as int + 0x1_0000 * bs[2] as int + 0x100_0000 * bs[3] as int == u;
  }

  /** Every four bytes are the encoding of the `Int32` they decode to, so the encoding is
      onto as well as one-to-one. */
  lemma EncodeDecodeInt32(bs: seq<Byte>)
    requires |bs| == 4
    ensures EncodeInt32(DecodeInt32(bs)) == bs
  {
    var u := bs[0] as int + 0x100 * bs[1] as int + 0x1_0000 * bs[2] as int + 0x100_0000 * bs[3] as int;
    var x := DecodeInt32(bs);
    assert Unsigned(x) == u;
    var e := EncodeInt32(x);
    assert u / 0x100 == bs[1] as int + 0x100 * bs[2] as int + 0x1_0000 * bs[3] as int;
    assert u / 0x1_0000 == bs[2] as int + 0x100 * bs[3] as int;
    assert u / 0x100_0000 == bs[3] as int;
    assert e[0] == bs[0] && e[1] == bs[1] && e[2] == bs[2] && e[3] == bs[3];
  }

  /** Appends the kill count, then the activity flag, to what the writer already holds. */
  function NetSend(s: State, out: seq<Byte>): (out': seq<Byte>)
    ensures |out'| == |out| + 5
    ensures out'[..|out|] == out
    ensures DecodeInt32(out'[|out|..|out| + 4]) == s.killCount
    ensures DecodeBool(out'[|out| + 4]) == s.isActive
  {
    DecodeEncodeInt32(s.killCount);
    out + EncodeInt32(s.killCount) + EncodeBool(s.isActive)
  }

  /** Reads the kill count, then the activity flag, in the order they were written, and
      hands back the bytes that follow. The receiver's threshold is kept. With four bytes
      but no fifth, the kill count has been assigned when `ReadBoolean` throws. */
  function NetReceive(s: State, input: seq<Byte>): (r: Result<(State, seq<Byte>), NetError>)
    ensures r.Err? <==> |input| < 5
    ensures r.Ok? ==> r.value.0.killsNeeded == s.killsNeeded
    ensures r.Ok? ==> EncodeInt32(r.value.0.killCount) == input[..4]
    ensures r.Ok? ==> (r.value.0.isActive <==> input[4] != 0)
    ensures r.Ok? ==> r.value.1 == input[5..]
    ensures r.Err? && |input| < 4 ==> r.error.written == s
    ensures r.Err? && |input| == 4 ==>
      r.error.written.isActive == s.isActive && r.error.written.killsNeeded == s.killsNeeded
      && EncodeInt32(r.error.written.killCount) == input
  {
    if |input| < 4 then Err(EndOfStream(s))
    else
      var killCount := DecodeInt32(input[..4]);
      EncodeDecodeInt32(input[..4]);
      if |input| < 5 then Err(EndOfStream(s.(killCount := killCount)))
      else
        var isActive := DecodeBool(input[4]);
        Ok((State(isActive, killCount, s.killsNeeded), input[5..]))
  }

  /** What one side sends, the other receives: activity flag and kill count arrive
      exactly, the receiver keeps its own threshold, and any bytes after the invasion's
      five are left for the next reader. */
  lemma ReceiveAfterSend(sent: State, receiver: State, rest: seq<Byte>)
    ensures NetReceive(receiver, NetSend(sent, []) + rest)
            == Ok((State(sent.isActive, sent.killCount, receiver.killsNeeded), rest))
  {
  }
}
