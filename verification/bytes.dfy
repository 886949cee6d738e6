/** Byte sequences and the two primitive readers the decoders are built from:
    reading up to a null delimiter (bufio's ReadString(0)) and reading a
    null-terminated field with its terminator trimmed (ReadString(0) followed by
    trimTailingNull), plus the big-endian 32-bit integers of chunk framing. */
module Bytes {
  import opened Wrappers

  newtype byte = x: int | 0 <= x < 256

  const Uint32Limit: nat := 0x1_0000_0000

  /** The unsigned 32-bit big-endian integer stored in four bytes
      (encoding/binary's BigEndian.Uint32). */
  function Uint32(b: seq<byte>): (n: nat)
    requires |b| == 4
    ensures n < Uint32Limit
  {
    b[0] as int * 0x100_0000 + b[1] as int * 0x1_0000 + b[2] as int * 0x100 + b[3] as int
  }

  /** The four big-endian bytes of an unsigned 32-bit integer. */
  function Uint32Bytes(n: nat): (r: seq<byte>)
    requires n < Uint32Limit
    ensures |r| == 4
  {
    [(n / 0x100_0000) as byte, (n / 0x1_0000 % 0x100) as byte, (n / 0x100 % 0x100) as byte, (n % 0x100) as byte]
  }

  lemma Uint32BytesRoundTrip(n: nat)
    requires n < Uint32Limit
    ensures Uint32(Uint32Bytes(n)) == n
  {
    var q1 := n / 0x100;
    var q2 := n / 0x1_0000;
    var q3 := n / 0x100_0000;
    assert n == q1 * 0x100 + n % 0x100;
    assert q2 == q1 / 0x100;
    assert q1 == q2 * 0x100 + q1 % 0x100;
    assert q3 == q2 / 0x100;
    assert q2 == q3 * 0x100 + q2 % 0x100;
  }

  lemma DigitsOfUint32(x0: int, x1: int, x2: int, x3: int)
    requires 0 <= x0 < 0x100 && 0 <= x1 < 0x100 && 0 <= x2 < 0x100 && 0 <= x3 < 0x100
    ensures var n := x0 * 0x100_0000 + x1 * 0x1_0000 + x2 * 0x100 + x3;
      && n / 0x100_0000 == x0 && n / 0x1_0000 % 0x100 == x1
      && n / 0x100 % 0x100 == x2 && n % 0x100 == x3
  {
    var n := x0 * 0x100_0000 + x1 * 0x1_0000 + x2 * 0x100 + x3;
    assert n / 0x100 == x0 * 0x1_0000 + x1 * 0x100 + x2;
    assert n / 0x1_0000 == x0 * 0x100 + x1;
  }

  lemma Uint32RoundTrip(b: seq<byte>)
    requires |b| == 4
    ensures Uint32Bytes(Uint32(b)) == b
  {
    DigitsOfUint32(b[0] as int, b[1] as int, b[2] as int, b[3] as int);
  }

  /** Position of the first null byte of `s`, or |s| when there is none. */
  function IndexOfNull(s: seq<byte>): (i: nat)
    ensures i <= |s|
    ensures i < |s| ==> s[i] == 0
    ensures forall k :: 0 <= k < i ==> s[k] != 0
  {
    if |s| == 0 then 0
    else if s[0] == 0 then 0
    else 1 + IndexOfNull(s[1..])
  }

  /** What bufio's ReadString(0) yields: the bytes read, the bytes left unread,
      and whether the delimiter was found (a nil error rather than io.EOF). */
  datatype Scan = Scan(line: seq<byte>, rest: seq<byte>, delimited: bool)

  /** Reads up to and including the first null byte; without one, reads
      everything and reports that the delimiter is missing. */
  function ReadString(s: seq<byte>): (r: Scan)
    ensures r.line + r.rest == s
    ensures r.delimited <==> 0 in s
    ensures r.delimited ==> |r.line| > 0 && r.line[|r.line| - 1] == 0 && 0 !in r.line[..|r.line| - 1]
    ensures !r.delimited ==> r.line == s && r.rest == []
  {
    var i := IndexOfNull(s);
    if i < |s| then
      assert s[..i + 1][..i] == s[..i];
      Scan(s[..i + 1], s[i + 1..], true)
    else
      Scan(s, [], false)
  }

  /** A null-terminated field with its terminator removed, and what follows it. */
  datatype Field = Field(value: seq<byte>, rest: seq<byte>)

  /** A null-terminated field: the bytes before the first null, and what
      follows that null; none when there is no null. */
  function ReadField(s: seq<byte>): (r: Option<Field>)
    ensures r.None? <==> 0 !in s
    ensures r.Some? ==> s == r.value.value + [0] + r.value.rest && 0 !in r.value.value
  {
    var i := IndexOfNull(s);
    if i < |s| then
      assert s == s[..i] + [0] + s[i + 1..];
      assert 0 !in s[..i] by {
        forall k | 0 <= k < i
          ensures s[..i][k] != 0
        {
        }
      }
      Some(Field(s[..i], s[i + 1..]))
    else
      assert 0 !in s by {
        forall k | 0 <= k < |s|
          ensures s[k] != 0
        {
        }
      }
      None
  }

  /** ReadField is ReadString(0) followed by trimTailingNull: exactly one
      null is removed from a delimited line, and a missing terminator is an
      error. */
  lemma ReadFieldIsTrimmedLine(s: seq<byte>)
    ensures var scan := ReadString(s);
      && (scan.delimited ==> ReadField(s) == Some(Field(scan.line[..|scan.line| - 1], scan.rest)))
      && (!scan.delimited ==> ReadField(s) == None)
  {
    var scan := ReadString(s);
    if scan.delimited {
      var i := IndexOfNull(s);
      assert scan.line == s[..i + 1];
      assert scan.line[..|scan.line| - 1] == s[..i];
    }
  }

  /** A field written in front of the bytes that follow it is read back. */
  lemma ReadFieldOfTerminated(value: seq<byte>, rest: seq<byte>)
    requires 0 !in value
    ensures ReadField(value + [0] + rest) == Some(Field(value, rest))
  {
    var s := value + [0] + rest;
    var i := IndexOfNull(s);
    assert s[|value|] == 0;
    assert i == |value|;
    assert s[..i] == value && s[i + 1..] == rest;
  }
}
