/**
 * The value type the cache stores (byteview.go): an immutable view of bytes.
 *
 * A Go `ByteView` wraps a byte slice that nothing outside the view can reach;
 * every read hands out a copy, so a caller that writes to what it got back
 * cannot change the view. Here the slice is an `array<byte>`, the copy is a
 * freshly allocated array, and the Go string that `String` returns is the
 * byte sequence it holds.
 */
module ByteViews {

  newtype byte = x: int | 0 <= x < 256

  datatype ByteView = ByteView(b: array<byte>) {

    /** The number of wrapped bytes, len(v.b). */
    function Len(): nat {
      b.Length
    }

    /** The wrapped bytes as a value, string(v.b): the bytes in order, as
        many as Len() reports. */
    function String(): (s: seq<byte>)
      reads b
      ensures |s| == Len()
      ensures forall i | 0 <= i < |s| :: s[i] == b[i]
    {
      b[..]
    }

    /** A copy of the wrapped bytes in a new array. */
    method ByteSlice() returns (c: array<byte>)
      ensures fresh(c)
      ensures c[..] == String()
    {
      c := CloneBytes(b);
    }
  }

  /** make([]byte, len(b)) followed by copy(c, b): a new zero-filled array of
      the same length that then receives every byte of `b`. */
  method CloneBytes(b: array<byte>) returns (c: array<byte>)
    ensures fresh(c)
    ensures c.Length == b.Length && c[..] == b[..]
  {
    c := new byte[b.Length](_ => 0);
    var i := 0;
    while i < b.Length
      invariant 0 <= i <= b.Length
      invariant c[..i] == b[..i]
    {
      c[i] := b[i];
      i := i + 1;
    }
    assert c[..] == c[..b.Length];
  }

  /** Copy on read: whatever is written into the array ByteSlice hands out,
      the view reports the same length and bytes afterwards as before. */
  method ByteSliceIsACopy(v: ByteView, i: nat, x: byte) returns (before: seq<byte>, after: seq<byte>, n: nat)
    requires i < v.Len()
    ensures after == before && |after| == n && n == v.Len()
  {
    before := v.String();
    var c := v.ByteSlice();
    c[i] := x;
    after := v.String();
    n := v.Len();
  }
}
