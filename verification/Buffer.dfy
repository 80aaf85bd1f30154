/** Writing in place through a cursor, the way every `Write*ToArray` does. */
module Buffer {
  import opened Words

  /** `after` is `before` with `bytes` copied in at `at` and nothing else touched. */
  ghost predicate Wrote(before: seq<byte>, after: seq<byte>, at: nat, bytes: seq<byte>) {
    && at + |bytes| <= |before| == |after|
    && after[..at] == before[..at]
    && after[at..at + |bytes|] == bytes
    && after[at + |bytes|..] == before[at + |bytes|..]
  }

  /** Two adjacent writes are one write of the concatenation. */
  lemma WroteThen(a: seq<byte>, b: seq<byte>, c: seq<byte>, at: nat, x: seq<byte>, y: seq<byte>)
    requires Wrote(a, b, at, x) && Wrote(b, c, at + |x|, y)
    ensures Wrote(a, c, at, x + y)
  {
    var mid, end := at + |x|, at + |x| + |y|;
    assert c[..at] == c[..mid][..at] == b[..mid][..at] == b[..at];
    assert c[at..mid] == c[..mid][at..] == b[..mid][at..] == b[at..mid];
    assert c[at..end] == c[at..mid] + c[mid..end];
    assert c[end..] == b[end..] == b[mid..][|y|..] == a[mid..][|y|..] == a[end..];
  }

  lemma WroteNothing(b: seq<byte>, at: nat)
    requires at <= |b|
    ensures Wrote(b, b, at, [])
  {
  }

  /** `memcpy(buf + at, bytes, |bytes|)`. */
  method CopyIn(bytes: seq<byte>, buf: array<byte>, at: nat) returns (next: nat)
    requires at + |bytes| <= buf.Length
    modifies buf
    ensures next == at + |bytes|
    ensures Wrote(old(buf[..]), buf[..], at, bytes)
  {
    var i := 0;
    while i < |bytes|
      invariant 0 <= i <= |bytes|
      invariant buf[..at] == old(buf[..at])
      invariant buf[at..at + i] == bytes[..i]
      invariant buf[at + i..] == old(buf[at + i..])
    {
      buf[at + i] := bytes[i];
      i := i + 1;
    }
    next := at + |bytes|;
    assert bytes[..|bytes|] == bytes;
  }
}
