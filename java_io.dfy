/**
 * The parts of java.io that the directory cache relies on: bytes, the
 * big-endian integers of DataOutput/DataInput, the exceptions the cache
 * catches or lets through, and the three DataInput reads its metadata
 * decoder performs (readInt, readUTF, Guava's ByteStreams.readFully).
 */
module JavaIo {

  datatype Option<+T> = None | Some(value: T)

  /** One octet of a stream. */
  type byte = b: int | 0 <= b < 256

  /** A Java byte array: its length is an int, so at most 2^31 - 1. */
  type JavaBytes = s: seq<byte> | |s| <= 0x7FFF_FFFF

  const INT_MIN: int := -0x8000_0000
  const INT_MAX: int := 0x7FFF_FFFF
  /** writeUTF stores the encoded length in an unsigned 16-bit field. */
  const UTF_LIMIT: int := 0x1_0000

  predicate IsInt(n: int) { INT_MIN <= n <= INT_MAX }

  // ---------------------------------------------------------------------
  // Exceptions

  datatype ExceptionKind =
    | NoSuchFile                 // java.nio.file.NoSuchFileException
    | EndOfFile                  // java.io.EOFException
    | IoFailure(className: string) // any other java.io.IOException subclass
    | NegativeArraySize          // java.lang.NegativeArraySizeException (unchecked)
    | IllegalArgument            // java.lang.IllegalArgumentException (unchecked)

  /** getMessage(): absent, a text, or the one Guava's readFully builds from its two counts. */
  datatype Message = NoMessage | Text(text: string) | ShortRead(got: nat, expected: nat)

  /** A thrown exception: its class and its message. */
  datatype JavaException = JavaException(kind: ExceptionKind, message: Message)

  /** True when `catch (IOException e)` catches the exception. */
  predicate IsIOException(e: JavaException) {
    !e.kind.NegativeArraySize? && !e.kind.IllegalArgument?
  }

  function ClassName(k: ExceptionKind): string {
    match k
    case NoSuchFile => "java.nio.file.NoSuchFileException"
    case EndOfFile => "java.io.EOFException"
    case IoFailure(c) => c
    case NegativeArraySize => "java.lang.NegativeArraySizeException"
    case IllegalArgument => "java.lang.IllegalArgumentException"
  }

  /** The message as String.format's %s prints it ("null" when absent). */
  function MessageText(m: Message): string {
    match m
    case NoMessage => "null"
    case Text(t) => t
    case ShortRead(got, expected) =>
      "reached end of stream after reading " + Decimal(got) + " bytes; " + Decimal(expected) + " bytes expected"
  }

  /** String.format("%s: %s", e.getClass(), e.getMessage()). */
  function Describe(e: JavaException): string {
    "class " + ClassName(e.kind) + ": " + MessageText(e.message)
  }

  /** The bare `new EOFException()` that DataInputStream throws. */
  const EOF_NULL: JavaException := JavaException(EndOfFile, NoMessage)

  // ---------------------------------------------------------------------
  // Decimal rendering, for exception messages

  function DigitChar(d: nat): char
    requires d < 10
  {
    "0123456789"[d]
  }

  function Decimal(n: nat): (s: string)
    ensures |s| > 0
    decreases n
  {
    if n < 10 then [DigitChar(n)] else Decimal(n / 10) + [DigitChar(n % 10)]
  }

  // ---------------------------------------------------------------------
  // Big-endian integers as DataOutput writes them

  /** writeInt: four bytes, most significant first, two's complement. */
  function IntBytes(n: int): (r: seq<byte>)
    requires IsInt(n)
    ensures |r| == 4
  {
    var u := if n < 0 then n + 0x1_0000_0000 else n;
    var r0 := u % 0x100_0000;
    var r1 := r0 % 0x1_0000;
    [u / 0x100_0000, r0 / 0x1_0000, r1 / 0x100, r1 % 0x100]
  }

  /** readInt on four bytes. */
  function IntValue(b: seq<byte>): (n: int)
    requires |b| == 4
    ensures IsInt(n)
    ensures b[0] < 0x80 <==> n >= 0
  {
    var u := b[0] as int * 0x100_0000 + b[1] as int * 0x1_0000 + b[2] as int * 0x100 + b[3] as int;
    if u >= 0x8000_0000 then u - 0x1_0000_0000 else u
  }

  /** writeShort of an unsigned length: two bytes, most significant first. */
  function ShortBytes(n: nat): (r: seq<byte>)
    requires n < UTF_LIMIT
    ensures |r| == 2
  {
    [n / 0x100, n % 0x100]
  }

  /** readUnsignedShort on two bytes. */
  function ShortValue(b: seq<byte>): (n: nat)
    requires |b| == 2
    ensures n < UTF_LIMIT
  {
    b[0] as int * 0x100 + b[1] as int
  }

  lemma IntRoundTrip(n: int)
    requires IsInt(n)
    ensures IntValue(IntBytes(n)) == n
  {
    var u := if n < 0 then n + 0x1_0000_0000 else n;
    var r0 := u % 0x100_0000;
    var r1 := r0 % 0x1_0000;
    assert u == (u / 0x100_0000) * 0x100_0000 + r0;
    assert r0 == (r0 / 0x1_0000) * 0x1_0000 + r1;
    assert r1 == (r1 / 0x100) * 0x100 + r1 % 0x100;
    var b := IntBytes(n);
    assert b[0] as int * 0x100_0000 + b[1] as int * 0x1_0000 + b[2] as int * 0x100 + b[3] as int == u;
  }

  lemma ShortRoundTrip(n: nat)
    requires n < UTF_LIMIT
    ensures ShortValue(ShortBytes(n)) == n
  {
  }

  /** Four bytes that read as a non-negative int are exactly what writeInt writes for it. */
  lemma IntBytesOfValue(b: seq<byte>)
    requires |b| == 4 && IntValue(b) >= 0
    ensures IntBytes(IntValue(b)) == b
  {
    var u := IntValue(b);
    var r0 := b[1] as int * 0x1_0000 + b[2] as int * 0x100 + b[3] as int;
    var r1 := b[2] as int * 0x100 + b[3] as int;
    assert u == b[0] as int * 0x100_0000 + r0 && 0 <= r0 < 0x100_0000;
    assert u / 0x100_0000 == b[0] as int && u % 0x100_0000 == r0;
    assert r0 == b[1] as int * 0x1_0000 + r1 && 0 <= r1 < 0x1_0000;
    assert r0 / 0x1_0000 == b[1] as int && r0 % 0x1_0000 == r1;
    assert r1 / 0x100 == b[2] as int && r1 % 0x100 == b[3] as int;
  }

  /** Two bytes are exactly what writeShort writes for their unsigned value. */
  lemma ShortBytesOfValue(b: seq<byte>)
    requires |b| == 2
    ensures ShortBytes(ShortValue(b)) == b
  {
  }

  // ---------------------------------------------------------------------
  // DataInput reads over a byte stream held as a sequence and a position

  /** The result of one read: the value and the position after it, or the exception thrown. */
  datatype Read<+T> = Read(value: T, next: nat) | Fail(error: JavaException)

  /** DataInputStream.readInt. */
  function ReadInt(s: seq<byte>, pos: nat): (r: Read<int>)
    ensures r.Read? <==> pos + 4 <= |s|
    ensures r.Read? ==> r.next == pos + 4 && IsInt(r.value)
    ensures r.Fail? ==> r.error == EOF_NULL
  {
    if pos + 4 <= |s| then Read(IntValue(s[pos..pos + 4]), pos + 4) else Fail(EOF_NULL)
  }

  /**
   * DataInputStream.readUTF, taking the key's modified-UTF-8 bytes as they
   * are: an unsigned 16-bit length, then that many bytes.
   */
  function ReadUTF(s: seq<byte>, pos: nat): (r: Read<seq<byte>>)
    ensures r.Read? ==> pos + 2 <= r.next <= |s| && |r.value| < UTF_LIMIT
    ensures r.Fail? ==> r.error == EOF_NULL
  {
    if pos + 2 > |s| then Fail(EOF_NULL)
    else
      var len := ShortValue(s[pos..pos + 2]);
      if pos + 2 + len > |s| then Fail(EOF_NULL)
      else Read(s[pos + 2..pos + 2 + len], pos + 2 + len)
  }

  /** Guava's ByteStreams.readFully into a fresh array of n bytes. */
  function ReadFully(s: seq<byte>, pos: nat, n: nat): (r: Read<seq<byte>>)
    ensures r.Read? <==> pos + n <= |s|
    ensures r.Read? ==> r.next == pos + n && |r.value| == n
    ensures r.Fail? ==> r.error.kind == EndOfFile
  {
    if pos + n <= |s| then Read(s[pos..pos + n], pos + n)
    else
      var got := if pos <= |s| then |s| - pos else 0;
      Fail(JavaException(EndOfFile, ShortRead(got, n)))
  }
}
