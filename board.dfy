/** How `GameMemory.create_board` (environment/game.py:18-27) lays out a board:
  * the pair list `list(range(1, total // 2 + 1)) * 2`, shuffled by
  * `random.shuffle`, reshaped row-major into `size` rows of `size` labels. */
module Board {
  import opened Wrappers

  /** The Python exceptions the engine can raise. */
  datatype Exception = ValueError | IndexError

  /** `list(range(1, half + 1))`. */
  function Labels(half: nat): (s: seq<int>)
    ensures |s| == half
  {
    seq(half, i => i + 1)
  }

  /** `list(range(1, half + 1)) * 2`: every label of `1..half` twice. */
  function Pairs(half: nat): (s: seq<int>)
    ensures |s| == 2 * half
  {
    Labels(half) + Labels(half)
  }

  /** The source of randomness for `random.shuffle` on a list of length `n`:
    * `draws[i]` is what `randbelow(i + 1)` returns when position `i` is visited,
    * so it lies in `[0, i]`. */
  predicate ValidDraws(draws: seq<nat>, n: int) {
    |draws| == n && forall i :: 0 <= i < |draws| ==> draws[i] <= i
  }

  function Swap(s: seq<int>, i: nat, j: nat): (r: seq<int>)
    requires i < |s| && j < |s|
  {
    s[i := s[j]][j := s[i]]
  }

  /** The loop of CPython's `random.shuffle`, visiting positions `k - 1` down to 1
    * and swapping each with the position drawn for it. */
  function ShuffleDown(s: seq<int>, draws: seq<nat>, k: nat): (r: seq<int>)
    requires ValidDraws(draws, |s|) && k <= |s|
    ensures |r| == |s|
    decreases k
  {
    if k <= 1 then s else ShuffleDown(Swap(s, k - 1, draws[k - 1]), draws, k - 1)
  }

  /** `random.shuffle(s)`, with its random choices given by `draws`. */
  function Shuffle(s: seq<int>, draws: seq<nat>): (r: seq<int>)
    requires ValidDraws(draws, |s|)
    ensures |r| == |s|
  {
    ShuffleDown(s, draws, |s|)
  }

  /** Cuts `nums` into consecutive rows of `n` values (the last one may be shorter). */
  function Chunk(nums: seq<int>, n: nat): (rows: seq<seq<int>>)
    requires n > 0
    decreases |nums|
  {
    if nums == [] then []
    else if |nums| <= n then [nums]
    else [nums[..n]] + Chunk(nums[n..], n)
  }

  /** `np.array(nums).reshape(n, n)` for a list of exactly `n * n` values. */
  function Reshape(nums: seq<int>, n: nat): seq<seq<int>>
    requires |nums| == n * n
  {
    if n == 0 then [] else Chunk(nums, n)
  }

  /** Row-major flattening of a board, `board.flatten()`. */
  function Flatten(rows: seq<seq<int>>): seq<int>
    decreases |rows|
  {
    if rows == [] then [] else rows[0] + Flatten(rows[1..])
  }

  predicate IsSquare<T>(rows: seq<seq<T>>, n: int) {
    |rows| == n && forall i :: 0 <= i < |rows| ==> |rows[i]| == n
  }

  /** `create_board` for a given `size`: a `ValueError` when `size * size` is odd
    * (line 21-22) or when numpy refuses a negative dimension in `reshape`
    * (line 25); otherwise the shuffled pair list as `size` rows. */
  function CreateBoardSpec(size: int, draws: seq<nat>): (r: Result<(seq<seq<int>>, seq<seq<bool>>), Exception>)
    requires ValidDraws(draws, size * size)
    ensures r.Err? ==> r.error == ValueError
    ensures r.Ok? ==> size >= 0 && r.value.1 == AllFalse(size)
  {
    var total := size * size;
    if total % 2 != 0 then Err(ValueError)
    else
      var nums := Shuffle(Pairs(total / 2), draws);
      if size < 0 then Err(ValueError) else Ok((Reshape(nums, size), AllFalse(size)))
  }

  /** `np.zeros((n, n), dtype=bool)`. */
  function AllFalse(n: nat): (g: seq<seq<bool>>)
    ensures IsSquare(g, n)
  {
    seq(n, i => seq(n, j => false))
  }

  /** A board of pairs: flattened, it is a permutation of `Pairs(n * n / 2)`. */
  ghost predicate PairBoard(board: seq<seq<int>>) {
    IsSquare(board, |board|)
    && multiset(Flatten(board)) == multiset(Pairs(|board| * |board| / 2))
  }

  // ---------------------------------------------------------------------------
  // Lemmas

  lemma {:induction false} LabelsCount(half: nat, v: int)
    ensures multiset(Labels(half))[v] == if 1 <= v <= half then 1 else 0
    decreases half
  {
    if half > 0 {
      assert Labels(half) == Labels(half - 1) + [half];
      LabelsCount(half - 1, v);
    }
  }

  /** Every label in `1..half` occurs exactly twice in the pair list, and nothing else occurs. */
  lemma PairsCount(half: nat, v: int)
    ensures multiset(Pairs(half))[v] == if 1 <= v <= half then 2 else 0
  {
    LabelsCount(half, v);
  }

  lemma SwapPermutes(s: seq<int>, i: nat, j: nat)
    requires i < |s| && j < |s|
    ensures multiset(Swap(s, i, j)) == multiset(s)
  {
    if i != j {
      var u := s[i := s[j]];
      assert multiset(u) == multiset(s) - multiset{s[i]} + multiset{s[j]};
      assert u[j] == s[j];
    }
  }

  /** `random.shuffle` only permutes: whatever the draws, the multiset is kept. */
  lemma {:induction false} ShuffleDownPermutes(s: seq<int>, draws: seq<nat>, k: nat)
    requires ValidDraws(draws, |s|) && k <= |s|
    ensures multiset(ShuffleDown(s, draws, k)) == multiset(s)
    decreases k
  {
    if k > 1 {
      SwapPermutes(s, k - 1, draws[k - 1]);
      ShuffleDownPermutes(Swap(s, k - 1, draws[k - 1]), draws, k - 1);
    }
  }

  lemma ShufflePermutes(s: seq<int>, draws: seq<nat>)
    requires ValidDraws(draws, |s|)
    ensures multiset(Shuffle(s, draws)) == multiset(s)
  {
    ShuffleDownPermutes(s, draws, |s|);
  }

  lemma {:induction false} FlattenChunk(nums: seq<int>, n: nat)
    requires n > 0
    ensures Flatten(Chunk(nums, n)) == nums
    decreases |nums|
  {
    if |nums| > n {
      FlattenChunk(nums[n..], n);
      assert nums == nums[..n] + nums[n..];
    } else if nums != [] {
      assert nums + [] == nums;
    }
  }

  lemma MulPred(m: nat, n: nat)
    requires m > 0
    ensures m * n - n == (m - 1) * n
  {
  }

  /** `m * n` values cut into rows of `n` give `m` full rows. */
  lemma {:induction false} ChunkShape(nums: seq<int>, n: nat, m: nat)
    requires n > 0 && |nums| == m * n
    ensures |Chunk(nums, n)| == m
    ensures forall i :: 0 <= i < m ==> |Chunk(nums, n)[i]| == n
    decreases m
  {
    if m > 0 {
      MulPred(m, n);
      if m > 1 {
        assert |nums| > n by { assert (m - 1) * n >= n; }
        ChunkShape(nums[n..], n, m - 1);
      }
    }
  }

  /** Reshaping into `n` rows of `n` and flattening again gives the list back. */
  lemma FlattenReshape(nums: seq<int>, n: nat)
    requires |nums| == n * n
    ensures IsSquare(Reshape(nums, n), n)
    ensures Flatten(Reshape(nums, n)) == nums
  {
    if n > 0 {
      FlattenChunk(nums, n);
      ChunkShape(nums, n, n);
    }
  }

  lemma SquareParity(size: int)
    ensures (size * size) % 2 == 0 <==> size % 2 == 0
  {
    var k := size / 2;
    if size % 2 == 0 {
      assert size * size == 2 * (2 * k * k);
    } else {
      assert size == 2 * k + 1;
      assert size * size == 2 * (2 * k * k + 2 * k) + 1;
    }
  }

  /** `create_board` succeeds exactly for non-negative even sizes, and then gives
    * a `size` by `size` board in which every label `1..size*size/2` occurs exactly
    * twice and no other value occurs, with a mask of the same shape that shows nothing. */
  lemma CreateBoardPairs(size: int, draws: seq<nat>)
    requires ValidDraws(draws, size * size)
    ensures CreateBoardSpec(size, draws).Ok? <==> size >= 0 && size % 2 == 0
    ensures CreateBoardSpec(size, draws).Err? ==> CreateBoardSpec(size, draws).error == ValueError
    ensures CreateBoardSpec(size, draws).Ok? ==>
              var (board, shown) := CreateBoardSpec(size, draws).value;
              IsSquare(board, size) && PairBoard(board) && shown == AllFalse(size)
              && forall v :: multiset(Flatten(board))[v] == if 1 <= v <= size * size / 2 then 2 else 0
  {
    SquareParity(size);
    if size >= 0 && size % 2 == 0 {
      var half := size * size / 2;
      var nums := Shuffle(Pairs(half), draws);
      ShufflePermutes(Pairs(half), draws);
      FlattenReshape(nums, size);
      forall v ensures multiset(nums)[v] == if 1 <= v <= half then 2 else 0 {
        PairsCount(half, v);
      }
    }
  }
}
