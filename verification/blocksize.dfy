/** The chunk size chosen from the memory the host reports as available. */
module BlockSize {
  import opened Wrappers

  const GiB: nat := 1073741824  // 1024 ** 3

  /** Used when the memory query raises. */
  const Fallback: nat := 524288

  /** Every size the chooser can return: 64 KiB up to 3 MiB. */
  const Sizes: set<nat> := {65536, 131072, 262144, 524288, 1048576, 1572864, 3145728}

  /** The tier chain on whole gibibytes available, in the order the source compares. */
  function SizeForGiB(gb: nat): nat {
    if gb <= 1 then 65536
    else if gb <= 2 then 131072
    else if gb <= 3 then 262144
    else if gb <= 4 then 524288
    else if gb <= 6 then 524288
    else if gb <= 8 then 1048576
    else if gb <= 12 then 1048576
    else if gb <= 16 then 1572864
    else if gb <= 24 then 1572864
    else if gb <= 32 then 3145728
    else 3145728
  }

  /** Whole gibibytes in a byte count, rounded down (`available / (1024 ** 3)`
      compared against whole numbers). */
  function WholeGiB(bytes: nat): (r: nat)
    ensures r * 1073741824 <= bytes < r * 1073741824 + 1073741824
  {
    bytes / 1073741824
  }

  /** `get_optimal_block_size`: `available` is the byte count the memory query
      returned, or `None` when the query raised. */
  function OptimalBlockSize(available: Option<nat>): (r: nat)
    ensures r in Sizes
    ensures r > 0
    ensures available.None? ==> r == Fallback
  {
    match available
    case None => Fallback
    case Some(bytes) => SizeForGiB(WholeGiB(bytes))
  }

  /** A tier table: `(limit, size)` rows tried in order, the first row whose
      limit is at least the input deciding; `top` above every limit. */
  function TierLookup(table: seq<(nat, nat)>, top: nat, gb: nat): nat {
    if table == [] then top
    else if gb <= table[0].0 then table[0].1
    else TierLookup(table[1..], top, gb)
  }

  /** The tiers as a table: limits increase, sizes never decrease, and the size
      above the last limit is the largest. */
  const TierTable: seq<(nat, nat)> := [(1, 65536), (2, 131072), (3, 262144), (6, 524288),
                                       (12, 1048576), (24, 1572864)]
  const TopSize: nat := 3145728

  predicate SortedTable(table: seq<(nat, nat)>, top: nat) {
    && (forall i :: 0 <= i < |table| - 1 ==> table[i].0 < table[i + 1].0 && table[i].1 <= table[i + 1].1)
    && (forall i :: 0 <= i < |table| ==> table[i].1 <= top)
  }

  /** Any sorted tier table is a non-decreasing step function. */
  lemma {:induction false} TierLookupMonotone(table: seq<(nat, nat)>, top: nat, a: nat, b: nat)
    requires SortedTable(table, top)
    requires a <= b
    ensures TierLookup(table, top, a) <= TierLookup(table, top, b)
  {
    if table != [] && a > table[0].0 {
      assert SortedTable(table[1..], top) by {
        forall i | 0 <= i < |table[1..]| ensures table[1..][i] == table[i + 1] {
        }
      }
      TierLookupMonotone(table[1..], top, a, b);
    } else if table != [] && a <= table[0].0 && b > table[0].0 {
      TierLookupAtLeastFirst(table, top, b);
    }
  }

  /** Past the first limit of a sorted table, the size is at least the first row's. */
  lemma {:induction false} TierLookupAtLeastFirst(table: seq<(nat, nat)>, top: nat, b: nat)
    requires SortedTable(table, top) && table != []
    ensures table[0].1 <= TierLookup(table, top, b)
  {
    if b > table[0].0 && |table| > 1 {
      TierLookupAtLeastFirst(table[1..], top, b);
      assert table[1..][0] == table[1];
    }
  }

  /** The chain of comparisons in the source is the sorted table above. */
  lemma SizeForGiBIsTable(gb: nat)
    ensures SizeForGiB(gb) == TierLookup(TierTable, TopSize, gb)
  {
    var t := TierTable;
    assert TierLookup(t, TopSize, gb) == if gb <= 1 then 65536 else TierLookup(t[1..], TopSize, gb);
    assert TierLookup(t[1..], TopSize, gb) == if gb <= 2 then 131072 else TierLookup(t[2..], TopSize, gb);
    assert TierLookup(t[2..], TopSize, gb) == if gb <= 3 then 262144 else TierLookup(t[3..], TopSize, gb);
    assert TierLookup(t[3..], TopSize, gb) == if gb <= 6 then 524288 else TierLookup(t[4..], TopSize, gb);
    assert TierLookup(t[4..], TopSize, gb) == if gb <= 12 then 1048576 else TierLookup(t[5..], TopSize, gb);
    assert TierLookup(t[5..], TopSize, gb) == if gb <= 24 then 1572864 else TierLookup(t[6..], TopSize, gb);
    assert t[6..] == [];
  }

  /** More memory never yields a smaller chunk. */
  lemma OptimalBlockSizeMonotone(a: nat, b: nat)
    requires a <= b
    ensures OptimalBlockSize(Some(a)) <= OptimalBlockSize(Some(b))
  {
    WholeGiBMonotone(a, b);
    SizeForGiBMonotone(WholeGiB(a), WholeGiB(b));
  }

  lemma WholeGiBMonotone(a: nat, b: nat)
    requires a <= b
    ensures WholeGiB(a) <= WholeGiB(b)
  {
  }

  /** The tier chain is a non-decreasing step function of whole gibibytes. */
  lemma SizeForGiBMonotone(x: nat, y: nat)
    requires x <= y
    ensures SizeForGiB(x) <= SizeForGiB(y)
  {
    SizeForGiBIsTable(x);
    SizeForGiBIsTable(y);
    TierTableSorted();
    TierLookupMonotone(TierTable, TopSize, x, y);
  }

  /** The source's tiers do form a sorted table. */
  lemma TierTableSorted()
    ensures SortedTable(TierTable, TopSize)
  {
    var t := TierTable;
    assert |t| == 6;
    assert t[0] == (1, 65536) && t[1] == (2, 131072) && t[2] == (3, 262144);
    assert t[3] == (6, 524288) && t[4] == (12, 1048576) && t[5] == (24, 1572864);
  }

  /** The documented tier boundaries: 1 GiB gives 64 KiB, 8 GiB gives 1 MiB,
      32 GiB gives 3 MiB, and anything below 2 GiB of whole gibibytes the smallest size. */
  lemma BlockSizeExamples()
    ensures OptimalBlockSize(Some(1 * GiB)) == 65536
    ensures OptimalBlockSize(Some(8 * GiB)) == 1048576
    ensures OptimalBlockSize(Some(32 * GiB)) == 3145728
    ensures OptimalBlockSize(Some(2 * GiB - 1)) == 65536
  {
  }
}
