/** The mega-menu's column table: which services, by their index in the
    services list, are shown in each of the two columns. */
module NavConfig {

  /** The `id`s of the site's services, in list order. */
  const Services: seq<string> := ["comptabilite", "conseil", "audit", "patrimoine", "creation", "rh"]

  /** `MEGA_COL_INDICES` */
  const MegaColIndices: seq<seq<int>> := [[0, 2, 3], [1, 4, 5]]

  /** The columns flattened in reading order. */
  function Flatten<T>(cols: seq<seq<T>>): (r: seq<T>)
    ensures |cols| == 0 ==> r == []
    decreases |cols|
  {
    if |cols| == 0 then [] else cols[0] + Flatten(cols[1..])
  }

  /** `cols` partitions the indices of an `n`-entry list: read in order, the
      columns list every index below `n` exactly once and nothing else, so
      in particular no column repeats an index and no two columns share one. */
  predicate IsPartition(cols: seq<seq<int>>, n: nat) {
    var f := Flatten(cols);
    && (forall x :: x in f ==> 0 <= x < n)
    && (forall p, q :: 0 <= p < q < |f| ==> f[p] != f[q])
    && (forall i :: 0 <= i < n ==> i in f)
  }

  /** Every index of every column is an index of an `n`-entry list. */
  predicate InRange(cols: seq<seq<int>>, n: nat) {
    forall c, k :: 0 <= c < |cols| && 0 <= k < |cols[c]| ==> 0 <= cols[c][k] < n
  }

  /** The services a column table selects, column by column. */
  function ColumnServices(cols: seq<seq<int>>): (r: seq<seq<string>>)
    requires InRange(cols, |Services|)
    ensures |r| == |cols|
    ensures forall c :: 0 <= c < |cols| ==> |r[c]| == |cols[c]|
  {
    seq(|cols|, c requires 0 <= c < |cols| => Pick(Services, cols[c]))
  }

  /** The services at the given indices, in order. */
  function Pick(table: seq<string>, xs: seq<int>): (r: seq<string>)
    requires forall k :: 0 <= k < |xs| ==> 0 <= xs[k] < |table|
    ensures |r| == |xs|
  {
    seq(|xs|, k requires 0 <= k < |xs| => table[xs[k]])
  }

  /** `[0, 1, ..., n - 1]` */
  function Range(n: nat): (r: seq<int>)
    ensures |r| == n && forall k :: 0 <= k < n ==> r[k] == k
  {
    seq(n, k => k)
  }

  /** Reading the selected services column by column picks the services at
      the flattened indices. */
  lemma {:induction false} FlattenColumnServices(cols: seq<seq<int>>)
    requires InRange(cols, |Services|)
    ensures forall k :: 0 <= k < |Flatten(cols)| ==> 0 <= Flatten(cols)[k] < |Services|
    ensures Flatten(ColumnServices(cols)) == Pick(Services, Flatten(cols))
    decreases |cols|
  {
    if |cols| > 0 {
      var rest := cols[1..];
      assert InRange(rest, |Services|) by {
        forall c, k | 0 <= c < |rest| && 0 <= k < |rest[c]|
          ensures 0 <= rest[c][k] < |Services|
        {
          assert rest[c] == cols[c + 1];
        }
      }
      FlattenColumnServices(rest);
      assert ColumnServices(cols)[1..] == ColumnServices(rest);
      assert Pick(Services, Flatten(cols)) == Pick(Services, cols[0]) + Pick(Services, Flatten(rest));
    }
  }

  /** In a sequence without repeats every value occurs at most once. */
  lemma {:induction false} DistinctCount(s: seq<int>, x: int)
    requires forall p, q :: 0 <= p < q < |s| ==> s[p] != s[q]
    ensures multiset(s)[x] == if x in s then 1 else 0
  {
    if |s| > 0 {
      assert s == [s[0]] + s[1..];
      DistinctCount(s[1..], x);
      if x == s[0] {
        assert x !in s[1..];
      }
    }
  }

  /** Removing the entry at `j` removes one occurrence of its value. */
  lemma RemoveAt(b: seq<int>, j: nat)
    requires j < |b|
    ensures multiset(b[..j] + b[j + 1..]) == multiset(b) - multiset{b[j]}
  {
    assert b == b[..j] + [b[j]] + b[j + 1..];
  }

  /** Picking distributes over the three parts of a list split at `j`. */
  lemma PickSplit(table: seq<string>, b: seq<int>, j: nat)
    requires j < |b| && forall k :: 0 <= k < |b| ==> 0 <= b[k] < |table|
    ensures multiset(Pick(table, b)) ==
      multiset(Pick(table, b[..j] + b[j + 1..])) + multiset{table[b[j]]}
  {
    assert Pick(table, b) == Pick(table, b[..j]) + [table[b[j]]] + Pick(table, b[j + 1..]);
    assert Pick(table, b[..j] + b[j + 1..]) == Pick(table, b[..j]) + Pick(table, b[j + 1..]);
  }

  /** Every entry of `xs` indexes a list of length `n`. */
  predicate Indexes(xs: seq<int>, n: nat) {
    forall k :: 0 <= k < |xs| ==> 0 <= xs[k] < n
  }

  /** Dropping the entry at `j` keeps the remaining entries valid indexes. */
  lemma IndexesRemoveAt(xs: seq<int>, j: nat, n: nat)
    requires j < |xs| && Indexes(xs, n)
    ensures Indexes(xs[..j] + xs[j + 1..], n)
  {
    var r := xs[..j] + xs[j + 1..];
    forall k | 0 <= k < |r|
      ensures 0 <= r[k] < n
    {
      if k < j { assert r[k] == xs[k]; } else { assert r[k] == xs[k + 1]; }
    }
  }

  /** One step of the permutation argument: the head of `a` sits at `j` in
      `b`, and the rest of both lists already pick the same multiset. */
  lemma PickPermutationStep(table: seq<string>, a: seq<int>, b: seq<int>, j: nat)
    requires |a| > 0 && j < |b| && b[j] == a[0]
    requires Indexes(a, |table|) && Indexes(b, |table|)
    requires Indexes(a[1..], |table|) && Indexes(b[..j] + b[j + 1..], |table|)
    requires multiset(Pick(table, a[1..])) == multiset(Pick(table, b[..j] + b[j + 1..]))
    ensures multiset(Pick(table, a)) == multiset(Pick(table, b))
  {
    PickSplit(table, b, j);
    assert Pick(table, a) == [table[a[0]]] + Pick(table, a[1..]);
  }

  /** Picking from a table respects permutation: two index lists that are
      rearrangements of each other select rearrangements of each other. */
  lemma {:induction false} PickPermutation(table: seq<string>, a: seq<int>, b: seq<int>)
    requires Indexes(a, |table|) && Indexes(b, |table|)
    requires multiset(a) == multiset(b)
    ensures multiset(Pick(table, a)) == multiset(Pick(table, b))
    decreases |a|
  {
    if |a| == 0 {
      assert |b| == |multiset(b)| == 0;
    } else {
      assert a[0] in multiset(b);
      var j :| 0 <= j < |b| && b[j] == a[0];
      RemoveAt(b, j);
      RemoveAt(a, 0);
      assert a[..0] + a[1..] == a[1..];
      IndexesRemoveAt(b, j, |table|);
      IndexesRemoveAt(a, 0, |table|);
      PickPermutation(table, a[1..], b[..j] + b[j + 1..]);
      PickPermutationStep(table, a, b, j);
    }
  }

  /** An index list without repeats that lists exactly the indices below `n`
      is a rearrangement of `Range(n)`. */
  lemma PermutationOfRange(f: seq<int>, n: nat)
    requires forall p, q :: 0 <= p < q < |f| ==> f[p] != f[q]
    requires forall x :: x in f ==> 0 <= x < n
    requires forall i :: 0 <= i < n ==> i in f
    ensures multiset(f) == multiset(Range(n))
  {
    forall x | true
      ensures multiset(f)[x] == multiset(Range(n))[x]
    {
      DistinctCount(f, x);
      DistinctCount(Range(n), x);
      if 0 <= x < n {
        assert Range(n)[x] == x;
        assert x in f && x in Range(n);
      } else {
        assert x !in f && x !in Range(n);
      }
    }
  }

  /** Any column table that partitions the services' indices lists every
      service exactly once: the menu's entries are a rearrangement of the
      services list. */
  lemma ColumnsListEachServiceOnce(cols: seq<seq<int>>)
    requires InRange(cols, |Services|) && IsPartition(cols, |Services|)
    ensures multiset(Flatten(ColumnServices(cols))) == multiset(Services)
  {
    var f := Flatten(cols);
    FlattenColumnServices(cols);
    PermutationOfRange(f, |Services|);
    PickPermutation(Services, f, Range(|Services|));
    assert Pick(Services, Range(|Services|)) == Services;
  }

  /** The table has two columns of three, and partitions the six services. */
  lemma MegaColumnsPartitionServices()
    ensures |Services| == 6
    ensures |MegaColIndices| == 2 && |MegaColIndices[0]| == 3 && |MegaColIndices[1]| == 3
    ensures IsPartition(MegaColIndices, |Services|)
  {
  }

  /** The index table read in order: accounting, audit, wealth; then
      advice, company creation, HR, each index exactly once. */
  lemma MegaColumnsContents()
    ensures Flatten(MegaColIndices) == [0, 2, 3, 1, 4, 5]
    ensures multiset(Flatten(MegaColIndices)) == multiset{0, 1, 2, 3, 4, 5}
  {
    assert MegaColIndices[1..][1..] == [];
    assert Flatten(MegaColIndices[1..]) == [1, 4, 5];
  }

  /** The menu's two columns name the services in the commented order. */
  lemma MegaColumnsServices()
    ensures InRange(MegaColIndices, |Services|)
    ensures ColumnServices(MegaColIndices) ==
      [["comptabilite", "audit", "patrimoine"], ["conseil", "creation", "rh"]]
  {
    var r := ColumnServices(MegaColIndices);
    assert r[0] == Pick(Services, [0, 2, 3]) == ["comptabilite", "audit", "patrimoine"];
    assert r[1] == Pick(Services, [1, 4, 5]) == ["conseil", "creation", "rh"];
  }

  /** Together the menu's columns list every service exactly once. */
  lemma MegaMenuListsEachServiceOnce()
    ensures InRange(MegaColIndices, |Services|)
    ensures multiset(Flatten(ColumnServices(MegaColIndices))) == multiset(Services)
  {
    MegaColumnsPartitionServices();
    ColumnsListEachServiceOnce(MegaColIndices);
  }
}
