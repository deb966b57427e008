/** Types and sequence facts shared by every component. */
module Common {

  /** One octet, as a number. */
  type byte = x: int | 0 <= x < 256

  /** The status codes the modelled functions return (aj_status.h). */
  datatype Status =
    | OK
    | ErrNull
    | ErrUnexpected
    | ErrResources
    | ErrRead
    | ErrWrite
    | ErrTimeout
    | ErrInterrupted
    | ErrMarshal
    | ErrUnmarshal
    | ErrSignature
    | ErrEndOfData
    | ErrNoMore
    | ErrNoMatch
    | ErrObjectPath
    | ErrHdrCorrupt
    | ErrRejected
    | ErrFailure
    | ErrInvalid
    | ErrSecurity

  /** The header flag of messages whose body is encrypted. */
  const FLAG_ENCRYPTED: byte := 128

  datatype Option<+T> = None | Some(value: T)

  /** `n` zero octets. */
  function Zeros(n: nat): (z: seq<byte>)
    ensures |z| == n
    ensures forall i :: 0 <= i < n ==> z[i] == 0
  {
    seq(n, _ => 0)
  }

  /** A 32-bit unsigned number in the host's (little-endian) memory order. */
  function U32(n: nat): (s: seq<byte>)
    ensures |s| == 4
  {
    [n % 256, n / 0x100 % 256, n / 0x1_0000 % 256, n / 0x100_0000 % 256]
  }

  /** The 32-bit number stored in four octets. */
  function ReadU32(s: seq<byte>): (n: nat)
    requires |s| == 4
    ensures n < 0x1_0000_0000
  {
    s[0] as int + 0x100 * (s[1] as int) + 0x1_0000 * (s[2] as int) + 0x100_0000 * (s[3] as int)
  }

  lemma U32RoundTrip(n: nat)
    requires n < 0x1_0000_0000
    ensures ReadU32(U32(n)) == n
  {
    Quotient(n, n / 0x100);
    Quotient(n / 0x100, n / 0x1_0000);
    Quotient(n / 0x1_0000, n / 0x100_0000);
  }

  lemma Quotient(n: nat, q: nat)
    requires q == n / 0x100
    ensures n == q * 0x100 + n % 0x100
  {
  }

  /** A part of a part. */
  lemma SubSlice<T>(s: seq<T>, a: nat, b: nat, i: nat, j: nat)
    requires a <= b <= |s| && i <= j <= b - a
    ensures s[a..b][i..j] == s[a + i..a + j]
  {
    var part := s[a..b];
    forall k | 0 <= k < j - i ensures part[i..j][k] == s[a + i..a + j][k] {
      assert part[i + k] == s[a + i + k];
    }
  }

  function Min(a: int, b: int): int {
    if a < b then a else b
  }
}
