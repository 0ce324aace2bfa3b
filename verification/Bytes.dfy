/** Byte strings, C strings, little-endian words and a byte-addressed file. */
module Bytes {

  type byte = x: int | 0 <= x < 256

  const TWO32: int := 0x1_0000_0000
  const SLASH: byte := 47

  /** Number of bytes of `s` before the first `b`; all of them when `b` does not occur. */
  function CountTo(s: seq<byte>, b: byte): (n: nat)
    ensures n <= |s|
  {
    if s == [] || s[0] == b then 0 else 1 + CountTo(s[1..], b)
  }

  lemma {:induction false} CountToStops(s: seq<byte>, b: byte)
    ensures b !in s[..CountTo(s, b)]
    ensures CountTo(s, b) < |s| ==> s[CountTo(s, b)] == b
  {
    if s != [] && s[0] != b {
      CountToStops(s[1..], b);
      assert s[..CountTo(s, b)] == [s[0]] + s[1..][..CountTo(s[1..], b)];
    }
  }

  lemma CountToUnique(s: seq<byte>, b: byte, n: nat)
    requires n <= |s| && b !in s[..n]
    requires n < |s| ==> s[n] == b
    ensures CountTo(s, b) == n
  {
    var m := CountTo(s, b);
    CountToStops(s, b);
    assert forall i | 0 <= i < n :: s[i] == s[..n][i] != b;
    assert forall i | 0 <= i < m :: s[i] == s[..m][i] != b;
  }

  /** The count of two parts, the first without `b`, adds up. */
  lemma {:induction false} CountToJoin(a: seq<byte>, s: seq<byte>, b: byte)
    requires b !in a
    ensures CountTo(a + s, b) == |a| + CountTo(s, b)
    decreases |a|
  {
    if a == [] {
      assert a + s == s;
    } else {
      assert (a + s)[1..] == a[1..] + s;
      CountToJoin(a[1..], s, b);
    }
  }

  /** An occurrence of `b` bounds the count. */
  lemma CountToBound(s: seq<byte>, b: byte, i: nat)
    requires i < |s| && s[i] == b
    ensures CountTo(s, b) <= i
  {
    var n := CountTo(s, b);
    CountToStops(s, b);
    assert forall j | 0 <= j < n :: s[j] == s[..n][j] != b;
  }

  /** What a C string function sees of a byte buffer: everything before the first NUL. */
  function CString(s: seq<byte>): seq<byte> {
    s[..CountTo(s, 0)]
  }

  /** A C string ends before its first NUL, and without one it is the whole buffer. */
  lemma CStringEnds(a: seq<byte>, b: seq<byte>)
    requires 0 !in a
    ensures CString(a) == a && CString(a + [0] + b) == a
  {
    CountToUnique(a, 0, |a|);
    CountToUnique(a + [0] + b, 0, |a|);
    assert (a + [0] + b)[..|a|] == a;
  }

  function Zeros(n: nat): (r: seq<byte>)
    ensures |r| == n
  {
    seq(n, _ => 0)
  }

  // ---------- 32-bit words as they lie in the file ----------

  /** The four little-endian bytes of a 32-bit word; higher bits are dropped. */
  function Word(x: nat): (r: seq<byte>)
    ensures |r| == 4
  {
    [x % 256, x / 256 % 256, x / 65536 % 256, x / 16777216 % 256]
  }

  function WordValue(s: seq<byte>): nat
    requires |s| == 4
  {
    s[0] as int + 256 * s[1] as int + 65536 * s[2] as int + 16777216 * s[3] as int
  }

  /** The low byte comes first, and the rest are the first three bytes of the quotient. */
  lemma LowByteFirst(x: nat)
    ensures Word(x)[0] == x % 0x100
    ensures Word(x)[1..] == Word(x / 0x100)[..3]
  {
    var a, b, c := x / 256, x / 65536, x / 16777216;
    assert a / 256 == b && b / 256 == c && a / 65536 == c;
  }

  lemma WordRoundTrip(x: nat)
    requires x < TWO32
    ensures WordValue(Word(x)) == x
  {
    var a, b, c := x / 256, x / 65536, x / 16777216;
    assert a / 256 == b && b / 256 == c && c < 256;
    assert x == 256 * a + x % 256;
    assert a == 256 * b + a % 256;
    assert b == 256 * c + b % 256;
  }

  // ---------- the file behind the descriptor ----------

  /** POSIX `pwrite` with a complete transfer: a gap is zero-filled, bytes beyond the data stay. */
  function PWrite(file: seq<byte>, data: seq<byte>, at: nat): (r: seq<byte>)
    ensures data != [] ==> |r| == if |file| < at + |data| then at + |data| else |file|
    ensures data != [] ==> r[at..at + |data|] == data
    ensures at <= |file| ==> |r| >= |file| && |r| >= at + |data| && r[..at] == file[..at]
    ensures forall i | 0 <= i < |file| && !(at <= i < at + |data|) :: i < |r| && r[i] == file[i]
  {
    if data == [] then file
    else
      var base := if |file| < at then file + Zeros(at - |file|) else file;
      base[..at] + data + (if at + |data| < |base| then base[at + |data|..] else [])
  }

  /** POSIX `pread`: fewer bytes than asked when the file ends first. */
  function PRead(file: seq<byte>, length: nat, at: nat): (r: seq<byte>)
    ensures |r| <= length
    ensures at + length <= |file| ==> r == file[at..at + length]
  {
    if at >= |file| then []
    else if at + length <= |file| then file[at..at + length]
    else file[at..]
  }
}
