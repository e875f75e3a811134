/**
  The admin route's `secureCompare`: both UTF-8 encodings are copied into zero-filled
  buffers of the longer length and those are compared with `crypto.timingSafeEqual`.
  What that decides is equality of the two strings once trailing NUL characters are
  ignored (`SecureEqualIffStripNul`).
*/
module SecureCompare {

  import opened Wrappers
  import opened Utf8

  /** An argument of `secureCompare`, which checks `typeof` at run time. */
  datatype Arg = Str(s: string) | NotString

  function Max(a: nat, b: nat): nat {
    if a >= b then a else b
  }

  function Zeros(n: nat): seq<byte> {
    seq(n, _ => 0)
  }

  /** `x` followed by zero bytes up to length `n`, as in a zero-filled buffer `x` was copied into. */
  function Pad(x: seq<byte>, n: nat): seq<byte>
    requires |x| <= n
  {
    x + Zeros(n - |x|)
  }

  /** Both byte sequences are equal once padded with zeros to the longer length. */
  predicate PaddedEqual(x: seq<byte>, y: seq<byte>) {
    var n := Max(|x|, |y|);
    Pad(x, n) == Pad(y, n)
  }

  /** What `secureCompare(a, b)` returns for two strings. */
  predicate SecureEqual(a: string, b: string) {
    PaddedEqual(Encode(a), Encode(b))
  }

  /** The byte at `i`, reading past the end as zero. */
  function ByteAt(x: seq<byte>, i: nat): byte {
    if i < |x| then x[i] else 0
  }

  /**
    Padded equality position by position: the sequences agree below the shorter length,
    and the longer one holds only zeros past it.
  */
  lemma PaddedEqualPointwise(x: seq<byte>, y: seq<byte>)
    ensures PaddedEqual(x, y) <==>
      forall i :: 0 <= i < Max(|x|, |y|) ==> ByteAt(x, i) == ByteAt(y, i)
  {
    var n := Max(|x|, |y|);
    assert forall i :: 0 <= i < n ==> Pad(x, n)[i] == ByteAt(x, i) && Pad(y, n)[i] == ByteAt(y, i);
  }

  /** A difference below the shorter length, or a non-zero byte past it, makes the comparison fail. */
  lemma PaddedDifferenceFails(x: seq<byte>, y: seq<byte>, i: nat)
    requires (i < |x| && i < |y| && x[i] != y[i]) || (|y| <= i < |x| && x[i] != 0) || (|x| <= i < |y| && y[i] != 0)
    ensures !PaddedEqual(x, y)
  {
    PaddedEqualPointwise(x, y);
    assert ByteAt(x, i) != ByteAt(y, i);
  }

  lemma {:induction false} StripZerosShape(x: seq<byte>)
    ensures x == StripZeros(x) + Zeros(|x| - |StripZeros(x)|)
    decreases |x|
  {
    if x != [] && x[|x| - 1] == 0 {
      var init := x[..|x| - 1];
      StripZerosShape(init);
      var r := StripZeros(init);
      assert Zeros(|x| - |r|) == Zeros(|init| - |r|) + [0];
      assert x == init + [0];
    } else {
      assert Zeros(0) == [];
    }
  }

  lemma {:induction false} StripZerosOfPadded(z: seq<byte>, k: nat)
    ensures StripZeros(z + Zeros(k)) == StripZeros(z)
    decreases k
  {
    if k == 0 {
      assert z + Zeros(0) == z;
    } else {
      var x := z + Zeros(k);
      assert x[..|x| - 1] == z + Zeros(k - 1);
      StripZerosOfPadded(z, k - 1);
    }
  }

  lemma ZerosAppend(a: nat, b: nat)
    ensures Zeros(a) + Zeros(b) == Zeros(a + b)
  {
  }

  lemma PaddedEqualStripsEqual(x: seq<byte>, y: seq<byte>)
    requires PaddedEqual(x, y)
    ensures StripZeros(x) == StripZeros(y)
  {
    var n := Max(|x|, |y|);
    StripZerosOfPad(x, n);
    StripZerosOfPad(y, n);
  }

  lemma StripZerosOfPad(z: seq<byte>, n: nat)
    requires |z| <= n
    ensures StripZeros(Pad(z, n)) == StripZeros(z)
  {
    StripZerosOfPadded(z, n - |z|);
  }

  lemma PadOfStripped(x: seq<byte>, n: nat)
    requires |x| <= n
    ensures Pad(x, n) == StripZeros(x) + Zeros(n - |StripZeros(x)|)
  {
    var z := StripZeros(x);
    StripZerosShape(x);
    ZerosAppend(|x| - |z|, n - |x|);
  }

  /** Padded equality is equality once trailing zero bytes are ignored. */
  lemma PaddedEqualIffStripZeros(x: seq<byte>, y: seq<byte>)
    ensures PaddedEqual(x, y) <==> StripZeros(x) == StripZeros(y)
  {
    if PaddedEqual(x, y) {
      PaddedEqualStripsEqual(x, y);
    }
    if StripZeros(x) == StripZeros(y) {
      var n := Max(|x|, |y|);
      PadOfStripped(x, n);
      PadOfStripped(y, n);
    }
  }

  /** `secureCompare` on two strings decides equality up to trailing NUL characters. */
  lemma SecureEqualIffStripNul(a: string, b: string)
    ensures SecureEqual(a, b) <==> StripNul(a) == StripNul(b)
  {
    PaddedEqualIffStripZeros(Encode(a), Encode(b));
    EncodeStripNul(a);
    EncodeStripNul(b);
    if Encode(StripNul(a)) == Encode(StripNul(b)) {
      EncodeInjective(StripNul(a), StripNul(b));
    }
  }

  lemma SecureEqualReflexive(a: string)
    ensures SecureEqual(a, a)
  {
  }

  lemma SecureEqualSymmetric(a: string, b: string)
    ensures SecureEqual(a, b) == SecureEqual(b, a)
  {
  }

  /** A secret and the same secret followed by NUL characters compare equal. */
  lemma TrailingNulAccepted(a: string, k: nat)
    ensures SecureEqual(a, a + seq(k, _ => NUL))
    decreases k
  {
    SecureEqualIffStripNul(a, a + seq(k, _ => NUL));
    StripNulOfPadded(a, k);
  }

  lemma {:induction false} StripNulOfPadded(a: string, k: nat)
    ensures StripNul(a + seq(k, _ => NUL)) == StripNul(a)
    decreases k
  {
    if k == 0 {
      assert a + seq(0, _ => NUL) == a;
    } else {
      var s := a + seq(k, _ => NUL);
      assert s[..|s| - 1] == a + seq(k - 1, _ => NUL);
      StripNulOfPadded(a, k - 1);
    }
  }

  /** Appending a character other than NUL makes the comparison fail. */
  lemma ExtraCharRejected(a: string, c: char)
    requires c != NUL
    ensures !SecureEqual(a, a + [c])
  {
    SecureEqualIffStripNul(a, a + [c]);
  }

  /** The empty string matches exactly the strings made only of NUL characters. */
  lemma EmptyMatchesOnlyNuls(b: string)
    ensures SecureEqual("", b) <==> forall k :: 0 <= k < |b| ==> b[k] == NUL
  {
    SecureEqualIffStripNul("", b);
    if forall k :: 0 <= k < |b| ==> b[k] == NUL {
      assert b == "" + seq(|b|, _ => NUL);
      StripNulOfPadded("", |b|);
    }
  }

  /**
    `crypto.timingSafeEqual`: throws a range error when the lengths differ, and otherwise
    compares every byte without stopping at the first difference.
  */
  method TimingSafeEqual(x: array<byte>, y: array<byte>) returns (r: Result<bool, string>)
    ensures x.Length != y.Length ==> r == Err("ERR_CRYPTO_TIMING_SAFE_EQUAL_LENGTH")
    ensures x.Length == y.Length ==> r == Ok(x[..] == y[..])
  {
    if x.Length != y.Length {
      return Err("ERR_CRYPTO_TIMING_SAFE_EQUAL_LENGTH");
    }
    var differ := false;
    var i := 0;
    while i < x.Length
      invariant 0 <= i <= x.Length
      invariant differ <==> exists k :: 0 <= k < i && x[k] != y[k]
    {
      var mismatch := x[i] != y[i];
      differ := differ || mismatch;
      i := i + 1;
    }
    assert !differ ==> x[..] == y[..];
    assert differ ==> x[..] != y[..] by {
      if differ {
        var k :| 0 <= k < i && x[k] != y[k];
        assert x[..][k] != y[..][k];
      }
    }
    return Ok(!differ);
  }

  /** `buf.copy(target)`: the first bytes of `target` are overwritten with as much of `buf` as fits. */
  method CopyInto(buf: seq<byte>, target: array<byte>)
    modifies target
    ensures |buf| <= target.Length ==> target[..] == buf + old(target[..])[|buf|..]
    ensures |buf| > target.Length ==> target[..] == buf[..target.Length]
  {
    var n := if |buf| <= target.Length then |buf| else target.Length;
    var i := 0;
    while i < n
      invariant 0 <= i <= n
      invariant target[..i] == buf[..i]
      invariant target[i..] == old(target[..])[i..]
    {
      target[i] := buf[i];
      i := i + 1;
      assert target[..i] == target[..i - 1] + [buf[i - 1]];
    }
    assert target[..] == target[..n] + target[n..];
  }

  /** `Buffer.alloc(length, 0)` followed by `buf.copy` into it, for a buffer that fits. */
  method ZeroFilledCopy(buf: seq<byte>, length: nat) returns (padded: array<byte>)
    requires |buf| <= length
    ensures fresh(padded)
    ensures padded[..] == Pad(buf, length)
  {
    padded := new byte[length](_ => 0);
    assert padded[..] == Zeros(length);
    CopyInto(buf, padded);
    assert Zeros(length)[|buf|..] == Zeros(length - |buf|);
  }

  /**
    `secureCompare(a, b)`: false for a non-string argument; otherwise the two encodings
    are copied into zero-filled buffers of the longer length and compared.
  */
  method Compare(a: Arg, b: Arg) returns (ok: bool)
    ensures ok <==> a.Str? && b.Str? && SecureEqual(a.s, b.s)
  {
    if !a.Str? || !b.Str? {
      return false;
    }
    var bufA := Encode(a.s);
    var bufB := Encode(b.s);
    var maxLength := Max(|bufA|, |bufB|);
    var paddedA := ZeroFilledCopy(bufA, maxLength);
    var paddedB := ZeroFilledCopy(bufB, maxLength);
    var r := TimingSafeEqual(paddedA, paddedB);
    match r
    case Ok(equal) => ok := equal;
    case Err(_) => ok := false;
  }
}
