/** The chunk arithmetic shared by the two transfer loops of the GPU path:
    the stage-2 dispatch loop (chunks of 500 pairs) and the read-back loop
    (chunks of MaxRead flags). Both run i from 0 below ceil(size / m) and
    give chunk i the length `(i + 1) * m > size ? size % m : m`. */
module Chunking {

  /** ceil(size / m), computed in integers. */
  function ChunkCount(size: nat, m: nat): nat
    requires m > 0
  {
    (size + m - 1) / m
  }

  /** Length of chunk i, exactly as both loops compute it. */
  function ChunkLength(i: nat, size: nat, m: nat): nat
    requires m > 0
  {
    if (i + 1) * m > size then size % m else m
  }

  lemma MulLe(a: int, b: int, m: nat)
    requires a <= b
    ensures a * m <= b * m
  {
    assert b * m - a * m == (b - a) * m;
  }

  lemma MulSucc(k: int, m: int)
    ensures (k + 1) * m == k * m + m
  {
  }

  lemma MulAdd(n: int, a: int, b: int)
    ensures n * (a + b) == n * a + n * b
  {
  }

  /** Division is determined by any quotient/remainder pair with 0 <= r < m. */
  lemma DivUnique(a: int, m: int, q: int, r: int)
    requires m > 0 && 0 <= r < m && a == q * m + r
    ensures a / m == q && a % m == r
  {
    var q0, r0 := a / m, a % m;
    assert a == q0 * m + r0;
    if q0 > q {
      MulLe(q + 1, q0, m);
      MulSucc(q, m);
      assert false;
    } else if q0 < q {
      MulLe(q0 + 1, q, m);
      MulSucc(q0, m);
      assert false;
    }
  }

  /** ChunkCount splits as the number of full chunks plus one partial chunk when
      size is not a multiple of m. */
  lemma ChunkCountSplit(size: nat, m: nat)
    requires m > 0
    ensures size % m == 0 ==> ChunkCount(size, m) == size / m
    ensures size % m != 0 ==> ChunkCount(size, m) == size / m + 1
    ensures (size / m) * m + size % m == size
  {
    var q, r := size / m, size % m;
    assert size == q * m + r;
    if r == 0 {
      DivUnique(size + m - 1, m, q, m - 1);
    } else {
      MulSucc(q, m);
      DivUnique(size + m - 1, m, q + 1, r - 1);
    }
  }

  /** ChunkCount is the ceiling of size / m: the least c with c * m >= size.
      In particular no chunk is issued when size is 0. */
  lemma {:induction false} ChunkCountIsCeiling(size: nat, m: nat)
    requires m > 0
    ensures ChunkCount(size, m) * m >= size
    ensures ChunkCount(size, m) > 0 ==> (ChunkCount(size, m) - 1) * m < size
    ensures ChunkCount(size, m) == 0 <==> size == 0
  {
    ChunkCountSplit(size, m);
    var q, r := size / m, size % m;
    if r != 0 {
      MulSucc(q, m);
    } else if q > 0 {
      MulSucc(q - 1, m);
    }
  }

  /** Every chunk is non-empty and at most m long, starts at i * m and stays
      inside the data; all chunks but the last are full, and the last one ends
      exactly at size. */
  lemma {:induction false} ChunkShape(size: nat, m: nat, i: nat)
    requires m > 0 && i < ChunkCount(size, m)
    ensures 0 < ChunkLength(i, size, m) <= m
    ensures i * m + ChunkLength(i, size, m) <= size
    ensures i + 1 < ChunkCount(size, m) ==> ChunkLength(i, size, m) == m
    ensures i + 1 == ChunkCount(size, m) ==> i * m + ChunkLength(i, size, m) == size
  {
    ChunkCountSplit(size, m);
    var q, r := size / m, size % m;
    MulSucc(i, m);
    if i + 1 <= q {
      MulLe(i + 1, q, m);
      assert ChunkLength(i, size, m) == m;
      if i + 1 == ChunkCount(size, m) {
        assert r == 0 && i + 1 == q;
      }
    } else {
      assert r != 0 && i == q;
      assert (i + 1) * m > size;
      assert ChunkLength(i, size, m) == r;
    }
  }

  /** Sum of the first k chunk lengths. */
  function LengthSum(size: nat, m: nat, k: nat): nat
    requires m > 0
  {
    if k == 0 then 0 else LengthSum(size, m, k - 1) + ChunkLength(k - 1, size, m)
  }

  /** The first k chunks cover [0, k * m), and all of them cover [0, size). */
  lemma {:induction false} LengthSumCovers(size: nat, m: nat, k: nat)
    requires m > 0 && k <= ChunkCount(size, m)
    ensures LengthSum(size, m, k) == if k < ChunkCount(size, m) then k * m else size
  {
    if k == 0 {
      ChunkCountIsCeiling(size, m);
    } else {
      LengthSumCovers(size, m, k - 1);
      ChunkShape(size, m, k - 1);
      MulSucc(k - 1, m);
    }
  }

  /** The chunk lengths add up to size: nothing is lost or repeated. */
  lemma ChunkLengthsSum(size: nat, m: nat)
    requires m > 0
    ensures LengthSum(size, m, ChunkCount(size, m)) == size
  {
    LengthSumCovers(size, m, ChunkCount(size, m));
  }

  /** Chunk i of s: the slice starting at offset i * m of length ChunkLength. */
  function Chunk<T>(s: seq<T>, m: nat, i: nat): (c: seq<T>)
    requires m > 0 && i < ChunkCount(|s|, m)
    ensures |c| == ChunkLength(i, |s|, m) && 0 < |c| <= m
  {
    ChunkShape(|s|, m, i);
    var lo := i * m;
    s[lo .. lo + ChunkLength(i, |s|, m)]
  }

  /** The first k chunks of s, concatenated in order. */
  function Chunks<T>(s: seq<T>, m: nat, k: nat): seq<T>
    requires m > 0 && k <= ChunkCount(|s|, m)
  {
    if k == 0 then [] else Chunks(s, m, k - 1) + Chunk(s, m, k - 1)
  }

  /** The first k chunks are the prefix of s of length LengthSum(k). */
  lemma {:induction false} ChunksArePrefix<T>(s: seq<T>, m: nat, k: nat)
    requires m > 0 && k <= ChunkCount(|s|, m)
    ensures LengthSum(|s|, m, k) <= |s|
    ensures Chunks(s, m, k) == s[..LengthSum(|s|, m, k)]
  {
    LengthSumCovers(|s|, m, k);
    if k > 0 {
      ChunksArePrefix(s, m, k - 1);
      LengthSumCovers(|s|, m, k - 1);
      ChunkShape(|s|, m, k - 1);
      var lo := LengthSum(|s|, m, k - 1);
      assert lo == (k - 1) * m;
      assert s[..lo] + s[lo .. lo + ChunkLength(k - 1, |s|, m)] == s[..LengthSum(|s|, m, k)];
    }
  }

  /** The chunks tile s: concatenating all of them gives s back, without gaps
      or overlap. */
  lemma ChunksTile<T>(s: seq<T>, m: nat)
    requires m > 0
    ensures Chunks(s, m, ChunkCount(|s|, m)) == s
  {
    ChunksArePrefix(s, m, ChunkCount(|s|, m));
    ChunkLengthsSum(|s|, m);
  }
}
