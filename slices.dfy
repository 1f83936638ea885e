/** Rust's `slice::chunks` and `slice::chunks_exact` on sequences. */
module Slices {
  import opened Bits

  function Min(x: int, y: int): int
  {
    if x <= y then x else y
  }

  /** `slice::chunks(n)`: consecutive pieces of `n` elements, the last one
      possibly shorter; none at all for an empty slice. */
  function Chunks<T>(s: seq<T>, n: nat): seq<seq<T>>
    requires n >= 1
    decreases |s|
  {
    if s == [] then []
    else if |s| <= n then [s]
    else [s[..n]] + Chunks(s[n..], n)
  }

  /** `chunks(n)` yields the length divided by `n`, rounded up. */
  lemma {:induction false} ChunkCount<T>(s: seq<T>, n: nat)
    requires n >= 1
    ensures |Chunks(s, n)| == (|s| + n - 1) / n
    decreases |s|
  {
    if s == [] {
      DivUnique(n - 1, n, 0, n - 1);
    } else if |s| <= n {
      DivUnique(|s| + n - 1, n, 1, |s| - 1);
    } else {
      ChunkCount(s[n..], n);
      DivStep(|s| + n - 1, n);
    }
  }

  /** No piece of `chunks(n)` is empty, and none holds more than `n` elements. */
  lemma {:induction false} ChunkSizes<T>(s: seq<T>, n: nat)
    requires n >= 1
    ensures forall c :: c in Chunks(s, n) ==> 1 <= |c| <= n
    decreases |s|
  {
    if |s| > n {
      ChunkSizes(s[n..], n);
    }
  }

  /** A slice of what follows the first `n` elements. */
  lemma DropSlice<T>(s: seq<T>, n: nat, lo: nat, hi: nat)
    requires n <= |s| && lo <= hi <= |s| - n
    ensures s[n..][lo..hi] == s[n + lo .. n + hi]
  {
  }

  /** `i == k * n`, counted one piece at a time. */
  predicate Times(k: nat, n: nat, i: nat)
  {
    if k == 0 then i == 0 else i >= n && Times(k - 1, n, i - n)
  }

  lemma {:induction false} TimesMul(k: nat, n: nat)
    ensures Times(k, n, k * n)
  {
    if k > 0 {
      MulSucc(k - 1, n);
      TimesMul(k - 1, n);
    }
  }

  /** Piece `k` of `chunks(n)` starts at element `k * n` and holds up to `n` elements. */
  lemma ChunkAt<T>(s: seq<T>, n: nat, k: nat)
    requires n >= 1 && k * n < |s|
    ensures k < |Chunks(s, n)|
    ensures Chunks(s, n)[k] == s[k * n .. Min(k * n + n, |s|)]
  {
    TimesMul(k, n);
    ChunkFrom(s, n, k, k * n);
  }

  lemma {:induction false} ChunkFrom<T>(s: seq<T>, n: nat, k: nat, i: nat)
    requires n >= 1 && Times(k, n, i) && i < |s|
    ensures k < |Chunks(s, n)|
    ensures Chunks(s, n)[k] == s[i .. Min(i + n, |s|)]
    decreases k
  {
    if k > 0 {
      ChunkFrom(s[n..], n, k - 1, i - n);
      assert Chunks(s, n) == [s[..n]] + Chunks(s[n..], n);
      var hi := Min(i + n, |s|);
      assert Min(i - n + n, |s| - n) == hi - n;
      DropSlice(s, n, i - n, hi - n);
    }
  }

  /** `slice::chunks_exact(n)`: only the full pieces of `n` elements; the last
      `|s| % n` elements belong to no piece. */
  function ChunksExact<T>(s: seq<T>, n: nat): seq<seq<T>>
    requires n >= 1
    decreases |s|
  {
    if |s| < n then [] else [s[..n]] + ChunksExact(s[n..], n)
  }

  /** Every piece of `chunks_exact(n)` holds exactly `n` elements. */
  lemma {:induction false} ChunkExactSizes<T>(s: seq<T>, n: nat)
    requires n >= 1
    ensures forall c :: c in ChunksExact(s, n) ==> |c| == n
    decreases |s|
  {
    if |s| >= n {
      ChunkExactSizes(s[n..], n);
    }
  }

  /** `chunks_exact(n)` yields the length divided by `n`, rounded down. */
  lemma {:induction false} ChunkExactCount<T>(s: seq<T>, n: nat)
    requires n >= 1
    ensures |ChunksExact(s, n)| == |s| / n
    decreases |s|
  {
    if |s| < n {
      DivUnique(|s|, n, 0, |s|);
    } else {
      ChunkExactCount(s[n..], n);
      DivStep(|s|, n);
    }
  }

  /** Piece `k` of `chunks_exact(n)` is elements `k * n` up to `k * n + n`. */
  lemma ChunkExactAt<T>(s: seq<T>, n: nat, k: nat)
    requires n >= 1 && k * n + n <= |s|
    ensures k < |ChunksExact(s, n)|
    ensures ChunksExact(s, n)[k] == s[k * n .. k * n + n]
  {
    TimesMul(k, n);
    ChunkExactFrom(s, n, k, k * n);
  }

  lemma {:induction false} ChunkExactFrom<T>(s: seq<T>, n: nat, k: nat, i: nat)
    requires n >= 1 && Times(k, n, i) && i + n <= |s|
    ensures k < |ChunksExact(s, n)|
    ensures ChunksExact(s, n)[k] == s[i .. i + n]
    decreases k
  {
    if k > 0 {
      ChunkExactFrom(s[n..], n, k - 1, i - n);
      assert ChunksExact(s, n) == [s[..n]] + ChunksExact(s[n..], n);
      DropSlice(s, n, i - n, i);
    }
  }

  /** The pieces joined back together, in order. */
  function Flatten<T>(cs: seq<seq<T>>): seq<T>
  {
    if cs == [] then [] else cs[0] + Flatten(cs[1..])
  }

  /** `chunks` loses nothing: its pieces make up the whole slice. */
  lemma {:induction false} FlattenChunks<T>(s: seq<T>, n: nat)
    requires n >= 1
    ensures Flatten(Chunks(s, n)) == s
    decreases |s|
  {
    if |s| > n {
      FlattenChunks(s[n..], n);
      assert Chunks(s, n)[1..] == Chunks(s[n..], n);
      assert s == s[..n] + s[n..];
    } else if s != [] {
      assert Chunks(s, n)[1..] == [];
    }
  }

  /** `m % n`, by repeated subtraction. */
  function Remainder(m: nat, n: nat): nat
    requires n >= 1
    decreases m
  {
    if m < n then m else Remainder(m - n, n)
  }

  lemma {:induction false} RemainderIsMod(m: nat, n: nat)
    requires n >= 1
    ensures Remainder(m, n) == m % n
    decreases m
  {
    if m < n {
      DivUnique(m, n, 0, m);
    } else {
      RemainderIsMod(m - n, n);
      DivStep(m, n);
    }
  }

  /** `chunks_exact` keeps everything but the last `|s| % n` elements. */
  lemma FlattenChunksExact<T>(s: seq<T>, n: nat)
    requires n >= 1
    ensures Flatten(ChunksExact(s, n)) == s[..|s| - |s| % n]
  {
    RemainderIsMod(|s|, n);
    FlattenChunksExactFrom(s, n);
  }

  lemma {:induction false} FlattenChunksExactFrom<T>(s: seq<T>, n: nat)
    requires n >= 1
    ensures Remainder(|s|, n) <= |s|
    ensures Flatten(ChunksExact(s, n)) == s[..|s| - Remainder(|s|, n)]
    decreases |s|
  {
    if |s| >= n {
      var r := Remainder(|s|, n);
      FlattenChunksExactFrom(s[n..], n);
      assert ChunksExact(s, n)[1..] == ChunksExact(s[n..], n);
      assert s[..|s| - r] == s[..n] + s[n..][..|s| - n - r];
    }
  }
}
