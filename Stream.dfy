/**
  The archive's FILE stream: a fixed byte sequence and one read cursor,
  moved by fseek and advanced by fread, and read back by ftell. The
  directory walk and the texture decoder share this one cursor.
 */
module Stream {
  import opened Wrappers
  import opened Bytes

  /**
    The bytes an fread of n bytes from position p delivers: all n when
    the archive holds them, otherwise only those between p and the end
    (none when p is at or past the end).
   */
  function ReadAt(data: seq<Byte>, p: nat, n: nat): (got: seq<Byte>)
    ensures |got| <= n
    ensures |got| == n <==> n == 0 || p + n <= |data|
    ensures p <= |data| ==> p + |got| <= |data| && got == data[p..p + |got|]
    ensures p + n <= |data| ==> got == data[p..p + n]
    ensures p < |data| < p + n ==> got == data[p..]
    ensures p >= |data| ==> got == []
  {
    var start := if p < |data| then p else |data|;
    var stop := if p + n < |data| then p + n else |data|;
    data[start..stop]
  }

  /** A read that the decoder accepts: Some only when all n bytes came back. */
  function FullRead(data: seq<Byte>, p: nat, n: nat): (r: Option<seq<Byte>>)
    ensures r.Some? <==> n == 0 || p + n <= |data|
    ensures r.Some? ==> |r.value| == n
    ensures r.Some? && n > 0 ==> r.value == data[p..p + n]
  {
    var got := ReadAt(data, p, n);
    if |got| == n then Some(got) else None
  }

  /** Reading the block that ends a buffer gives that block back. */
  lemma FullReadEnd(x: seq<Byte>, y: seq<Byte>)
    ensures FullRead(x + y, |x|, |y|) == Some(y)
  {
    assert (x + y)[|x|..|x| + |y|] == y;
  }

  /** Appending to a buffer does not change a read that lies within it. */
  lemma FullReadPrefix(x: seq<Byte>, y: seq<Byte>, p: nat, n: nat)
    requires p + n <= |x|
    ensures FullRead(x + y, p, n) == FullRead(x, p, n)
  {
    assert (x + y)[p..p + n] == x[p..p + n];
  }

  /**
    Where fseek with SEEK_SET to p leaves a cursor standing at cur: at p,
    also past the end; a negative p is refused and the cursor stays.
   */
  function SeekResult(p: int, cur: nat): nat
  {
    if p >= 0 then p else cur
  }

  class Cursor {
    const data: seq<Byte>
    var pos: nat

    /** fopen: a stream over the archive, positioned at its start. */
    constructor (data: seq<Byte>)
      ensures this.data == data && pos == 0
    {
      this.data := data;
      pos := 0;
    }

    /** ftell. */
    method Tell() returns (p: nat)
      ensures p == pos
    {
      p := pos;
    }

    /** fseek with SEEK_SET, reporting whether it succeeded. */
    method Seek(p: int) returns (ok: bool)
      modifies this
      ensures ok <==> p >= 0
      ensures pos == SeekResult(p, old(pos))
    {
      ok := p >= 0;
      if ok {
        pos := p;
      }
    }

    /** fread of n bytes: the bytes delivered, and the cursor moved past them. */
    method Read(n: nat) returns (got: seq<Byte>)
      modifies this
      ensures got == ReadAt(data, old(pos), n)
      ensures pos == old(pos) + |got|
    {
      got := ReadAt(data, pos, n);
      pos := pos + |got|;
    }
  }
}
