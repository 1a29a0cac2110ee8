/** The wire format of a lock result in version 10 of the HA master
    protocol. A lock result is a lock status and an optional message. It is
    written as one byte holding the status ordinal and then the message:
    a 32-bit length followed by the message's UTF-16 code units, or the
    int 0 when there is no message. The buffer is big-endian. */
module LockResultCodec {
  import opened Results

  /** An unsigned octet as it sits in the channel buffer. */
  type Byte = b: int | 0 <= b < 0x100

  /** A Java `char`: one UTF-16 code unit. */
  type CodeUnit = c: int | 0 <= c < 0x1_0000

  /** A Java `String`: its length fits a non-negative `int`. */
  type JavaString = s: seq<CodeUnit> | |s| <= 0x7FFF_FFFF

  const MinInt: int := -0x8000_0000
  const MaxInt: int := 0x7FFF_FFFF

  /** The lock statuses, in declaration order. */
  datatype LockStatus = OkLocked | NotLocked | DeadLocked

  /** `LockStatus.values().length`. */
  const StatusCount: int := 3

  function Ordinal(s: LockStatus): (r: int)
    ensures 0 <= r < StatusCount
  {
    match s
    case OkLocked => 0
    case NotLocked => 1
    case DeadLocked => 2
  }

  /** `LockStatus.values()[ordinal]`, which fails outside the array. */
  function StatusOf(ordinal: int): (r: Option<LockStatus>)
    ensures r.Some? <==> 0 <= ordinal < StatusCount
    ensures r.Some? ==> Ordinal(r.value) == ordinal
  {
    if ordinal == 0 then Some(OkLocked)
    else if ordinal == 1 then Some(NotLocked)
    else if ordinal == 2 then Some(DeadLocked)
    else None
  }

  /** Every status is found again from its ordinal. */
  lemma StatusOfOrdinal(s: LockStatus)
    ensures StatusOf(Ordinal(s)) == Some(s)
  {
  }

  /** `new LockResult(status)` has no message; `new LockResult(status, message)` has one. */
  datatype LockResult = LockResult(status: LockStatus, message: Option<JavaString>)

  /** `readByte`: the octet read as a signed Java `byte`. */
  function SignedByte(b: Byte): (r: int)
    ensures -128 <= r < 128
    ensures r % 0x100 == b
  {
    if b < 0x80 then b else b - 0x100
  }

  /** `writeInt`: the value's 32-bit two's complement, most significant byte first. */
  function WriteInt(v: int): (r: seq<Byte>)
    requires MinInt <= v <= MaxInt
    ensures |r| == 4
  {
    var u := v % 0x1_0000_0000;
    [u / 0x100_0000, (u / 0x1_0000) % 0x100, (u / 0x100) % 0x100, u % 0x100]
  }

  /** `readInt`: four bytes, most significant first, read as a signed 32-bit int. */
  function ReadInt(b: seq<Byte>): (r: int)
    requires |b| == 4
    ensures MinInt <= r <= MaxInt
  {
    var u := b[0] as int * 0x100_0000 + b[1] as int * 0x1_0000 + b[2] as int * 0x100 + b[3];
    if u <= MaxInt then u else u - 0x1_0000_0000
  }

  /** The unsigned value of four bytes, split as the writer splits it. */
  lemma SplitWord(u: int)
    requires 0 <= u < 0x1_0000_0000
    ensures u / 0x100_0000 < 0x100
    ensures u == (u / 0x100_0000) * 0x100_0000 + ((u / 0x1_0000) % 0x100) * 0x1_0000
                 + ((u / 0x100) % 0x100) * 0x100 + u % 0x100
  {
  }

  /** An int read back after it is written is the same int. */
  lemma ReadWriteInt(v: int)
    requires MinInt <= v <= MaxInt
    ensures ReadInt(WriteInt(v)) == v
  {
    var u := v % 0x1_0000_0000;
    SplitWord(u);
    assert v >= 0 ==> u == v;
    assert v < 0 ==> u == v + 0x1_0000_0000;
  }

  /** Four bytes written back after they are read are the same four bytes. */
  lemma WriteReadInt(b: seq<Byte>)
    requires |b| == 4
    ensures WriteInt(ReadInt(b)) == b
  {
    var u := b[0] as int * 0x100_0000 + b[1] as int * 0x1_0000 + b[2] as int * 0x100 + b[3];
    assert ReadInt(b) % 0x1_0000_0000 == u;
    SplitWord(u);
    assert u / 0x100_0000 == b[0];
    assert (u / 0x1_0000) % 0x100 == b[1];
    assert (u / 0x100) % 0x100 == b[2];
    assert u % 0x100 == b[3];
  }

  /** The code unit whose high byte is `hi` and low byte `lo`. */
  function Unit(hi: Byte, lo: Byte): (c: CodeUnit)
    ensures c / 0x100 == hi && c % 0x100 == lo
  {
    hi as int * 0x100 + lo
  }

  /** The message's code units, two bytes each, high byte first. */
  function WriteChars(s: seq<CodeUnit>): (r: seq<Byte>)
    ensures |r| == 2 * |s|
    ensures forall i | 0 <= i < |s| :: Unit(r[2 * i], r[2 * i + 1]) == s[i]
  {
    if s == [] then []
    else [s[0] / 0x100, s[0] % 0x100] + WriteChars(s[1..])
  }

  /** Reads `n` code units from the front of `b`. */
  function ReadChars(b: seq<Byte>, n: nat): (r: seq<CodeUnit>)
    requires 2 * n <= |b|
    ensures |r| == n
    ensures forall i | 0 <= i < n :: r[i] == Unit(b[2 * i], b[2 * i + 1])
  {
    if n == 0 then []
    else [Unit(b[0], b[1])] + ReadChars(b[2..], n - 1)
  }

  /** The code units read back from the written bytes are the written ones,
      whatever follows them. */
  lemma ReadWriteChars(s: seq<CodeUnit>, rest: seq<Byte>)
    ensures ReadChars(WriteChars(s) + rest, |s|) == s
  {
    var r := ReadChars(WriteChars(s) + rest, |s|);
    forall i | 0 <= i < |s| ensures r[i] == s[i] {
      assert (WriteChars(s) + rest)[2 * i] == WriteChars(s)[2 * i];
      assert (WriteChars(s) + rest)[2 * i + 1] == WriteChars(s)[2 * i + 1];
    }
  }

  /** The fields of a status byte, a 4-byte word and what follows. */
  lemma Fields(head: Byte, word: seq<Byte>, tail: seq<Byte>)
    requires |word| == 4
    ensures ([head] + word + tail)[0] == head
    ensures ([head] + word + tail)[1..5] == word
    ensures ([head] + word + tail)[5..] == tail
  {
  }

  /** `LOCK_RESULT_OBJECT_SERIALIZER`: the status byte is the ordinal; the
      length word is the message length, or 0 without a message; the
      message's code units follow. */
  function Serialize(r: LockResult): (bytes: seq<Byte>)
    ensures |bytes| == 5 + (if r.message.Some? then 2 * |r.message.value| else 0)
    ensures SignedByte(bytes[0]) == Ordinal(r.status)
    ensures ReadInt(bytes[1..5]) == if r.message.Some? then |r.message.value| else 0
    ensures r.message.Some? ==> ReadChars(bytes[5..], |r.message.value|) == r.message.value
  {
    var length := if r.message.Some? then |r.message.value| else 0;
    var chars := if r.message.Some? then WriteChars(r.message.value) else [];
    Fields(Ordinal(r.status), WriteInt(length), chars);
    ReadWriteInt(length);
    if r.message.Some? then
      ReadWriteChars(r.message.value, []);
      assert chars + [] == chars;
      [Ordinal(r.status)] + WriteInt(length) + chars
    else
      [Ordinal(r.status)] + WriteInt(length) + chars
  }

  /** Why a lock result could not be read. */
  datatype DecodeError =
    | BufferUnderflow
    | InvalidOrdinal(ordinal: int)

  /** A decoded lock result and the bytes after it. */
  datatype Decoded = Decoded(result: LockResult, rest: seq<Byte>)

  /** `LOCK_RESULT_DESERIALIZER`. The status byte and the length are read
      before the ordinal is checked, so a short buffer is an underflow even
      when its status byte is bad. A length that is not positive means no
      message. */
  function Deserialize(bytes: seq<Byte>): (r: Result<Decoded, DecodeError>)
    ensures |bytes| < 5 ==> r == Failure(BufferUnderflow)
    ensures |bytes| >= 5 ==>
              (StatusOf(SignedByte(bytes[0])).None? <==> r == Failure(InvalidOrdinal(SignedByte(bytes[0]))))
    ensures r.Success? ==>
              && Ordinal(r.value.result.status) == SignedByte(bytes[0])
              && (ReadInt(bytes[1..5]) <= 0 <==> r.value.result.message.None?)
    ensures r.Success? && r.value.result.message.None? ==> r.value.rest == bytes[5..]
    ensures r.Success? && r.value.result.message.Some? ==>
              var m := r.value.result.message.value;
              && |m| == ReadInt(bytes[1..5])
              && bytes[5..] == WriteChars(m) + r.value.rest
    ensures |bytes| >= 5 && StatusOf(SignedByte(bytes[0])).Some? && ReadInt(bytes[1..5]) > 0 ==>
              (r == Failure(BufferUnderflow) <==> |bytes| < 5 + 2 * ReadInt(bytes[1..5]))
  {
    if |bytes| < 5 then Failure(BufferUnderflow)
    else
      var statusOrdinal := SignedByte(bytes[0]);
      var messageLength := ReadInt(bytes[1..5]);
      match StatusOf(statusOrdinal)
      case None => Failure(InvalidOrdinal(statusOrdinal))
      case Some(status) =>
        if messageLength > 0 then
          if |bytes| - 5 < 2 * messageLength then Failure(BufferUnderflow)
          else
            var m := ReadChars(bytes[5..], messageLength);
            var used := 5 + 2 * messageLength;
            WriteReadChars(bytes[5..], messageLength);
            assert bytes[5..] == bytes[5..used] + bytes[used..];
            Success(Decoded(LockResult(status, Some(m)), bytes[used..]))
        else
          Success(Decoded(LockResult(status, None), bytes[5..]))
  }

  /** Bytes read as code units and written back are the bytes read. */
  lemma WriteReadChars(b: seq<Byte>, n: nat)
    requires 2 * n <= |b|
    ensures WriteChars(ReadChars(b, n)) == b[..2 * n]
  {
    var w := WriteChars(ReadChars(b, n));
    forall i | 0 <= i < 2 * n ensures w[i] == b[i] {
      var k := i / 2;
      assert Unit(w[2 * k], w[2 * k + 1]) == Unit(b[2 * k], b[2 * k + 1]);
    }
  }

  /** A lock result read back after it is written is the same lock result,
      and the bytes after it are left unread; the one exception is an empty
      message (see `EmptyMessageIsLost`). */
  lemma RoundTrip(r: LockResult, rest: seq<Byte>)
    requires r.message != Some([])
    ensures Deserialize(Serialize(r) + rest) == Success(Decoded(r, rest))
  {
    var length := if r.message.Some? then |r.message.value| else 0;
    var chars := if r.message.Some? then WriteChars(r.message.value) else [];
    assert Serialize(r) == [Ordinal(r.status)] + WriteInt(length) + chars;
    var bytes := Serialize(r) + rest;
    Fields(Ordinal(r.status), WriteInt(length), chars + rest);
    assert bytes == [Ordinal(r.status)] + WriteInt(length) + (chars + rest);
    ReadWriteInt(length);
    StatusOfOrdinal(r.status);
    var d := Deserialize(bytes);
    if r.message.Some? {
      var got := d.value.result.message.value;
      SameChars(got, d.value.rest, r.message.value, rest);
    }
  }

  /** Equal byte strings that start with equally long messages start with
      the same message. */
  lemma SameChars(m1: seq<CodeUnit>, rest1: seq<Byte>, m2: seq<CodeUnit>, rest2: seq<Byte>)
    requires |m1| == |m2| && WriteChars(m1) + rest1 == WriteChars(m2) + rest2
    ensures m1 == m2 && rest1 == rest2
  {
    ReadWriteChars(m1, rest1);
    ReadWriteChars(m2, rest2);
    assert rest1 == (WriteChars(m1) + rest1)[2 * |m1|..];
    assert rest2 == (WriteChars(m2) + rest2)[2 * |m2|..];
  }

  /** Every status survives a write and a read, with or without a message. */
  lemma StatusSurvives(r: LockResult)
    ensures Deserialize(Serialize(r)).Success?
    ensures Deserialize(Serialize(r)).value.result.status == r.status
  {
    StatusOfOrdinal(r.status);
  }

  /** An empty message is written as length 0 and so is read back as no
      message at all. */
  lemma EmptyMessageIsLost(status: LockStatus, rest: seq<Byte>)
    ensures Serialize(LockResult(status, Some([]))) == Serialize(LockResult(status, None))
    ensures Deserialize(Serialize(LockResult(status, Some([]))) + rest)
         == Success(Decoded(LockResult(status, None), rest))
  {
    RoundTrip(LockResult(status, None), rest);
  }

  /** A status byte outside the ordinals of `LockStatus`, a negative one
      included, is rejected once the length has been read, whatever follows. */
  lemma BadOrdinalRejected(b: Byte, length: seq<Byte>, rest: seq<Byte>)
    requires |length| == 4
    requires SignedByte(b) < 0 || SignedByte(b) >= StatusCount
    ensures Deserialize([b] + length + rest) == Failure(InvalidOrdinal(SignedByte(b)))
  {
    Fields(b, length, rest);
  }

  /** A high-bit status byte is read as a negative ordinal and rejected. */
  lemma NegativeOrdinalRejected(b: Byte, length: seq<Byte>, rest: seq<Byte>)
    requires |length| == 4 && b >= 0x80
    ensures Deserialize([b] + length + rest) == Failure(InvalidOrdinal(b - 0x100))
  {
    BadOrdinalRejected(b, length, rest);
  }

  /** A length that is not positive yields a result without a message and
      consumes nothing after the length. */
  lemma NonPositiveLengthHasNoMessage(status: LockStatus, length: int, rest: seq<Byte>)
    requires MinInt <= length <= 0
    ensures Deserialize([Ordinal(status)] + WriteInt(length) + rest)
         == Success(Decoded(LockResult(status, None), rest))
  {
    Fields(Ordinal(status), WriteInt(length), rest);
    ReadWriteInt(length);
    StatusOfOrdinal(status);
  }

  /** The other direction: every readable lock result that carries a
      message is exactly the bytes its writer produces, followed by the
      unread bytes. */
  lemma ReadMessageIsWritten(bytes: seq<Byte>)
    requires Deserialize(bytes).Success? && Deserialize(bytes).value.result.message.Some?
    ensures Serialize(Deserialize(bytes).value.result) + Deserialize(bytes).value.rest == bytes
  {
    var d := Deserialize(bytes).value;
    var m := d.result.message.value;
    var status := Ordinal(d.result.status);
    assert status == bytes[0];
    WriteReadInt(bytes[1..5]);
    assert WriteInt(|m|) == bytes[1..5];
    assert Serialize(d.result) == [status] + WriteInt(|m|) + WriteChars(m);
    assert bytes == [bytes[0]] + bytes[1..5] + bytes[5..];
  }
}
