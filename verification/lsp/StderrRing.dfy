/** The capped capture of a server's stderr (`crates/lsp-client/src/client.rs`). */
module StderrRing {

  import opened Framing

  const STDERR_RING_BYTES := 65_536

  /** The last `n` bytes. */
  function Newest(s: bytes, n: nat): bytes {
    if |s| <= n then s else s[|s| - n..]
  }

  /** Dropping old bytes early loses nothing that would be kept later. */
  lemma NewestOfNewest(a: bytes, b: bytes, n: nat)
    ensures Newest(Newest(a, n) + b, n) == Newest(a + b, n)
  {
    if |a| > n {
      assert (a[|a| - n..] + b)[|b|..] == (a + b)[|a| + |b| - n..];
    }
  }

  class Ring {
    var buf: bytes
    /** Everything that was ever pushed. */
    ghost var written: bytes

    ghost predicate Valid()
      reads this
    {
      buf == Newest(written, STDERR_RING_BYTES)
    }

    constructor ()
      ensures Valid() && written == []
    {
      buf, written := [], [];
    }

    /** However the bytes are cut into chunks, the ring holds the last 64 KiB of all of them. */
    method Push(chunk: bytes)
      requires Valid()
      modifies this
      ensures Valid() && written == old(written) + chunk && |buf| <= STDERR_RING_BYTES
      ensures |buf| == (if |written| < 65536 then |written| else 65536) && buf == written[|written| - |buf|..]
    {
      NewestOfNewest(written, chunk, STDERR_RING_BYTES);
      buf := buf + chunk;
      if |buf| > STDERR_RING_BYTES {
        var excess := |buf| - STDERR_RING_BYTES;
        buf := buf[excess..];
      }
      written := written + chunk;
    }
  }
}
