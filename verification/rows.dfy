/** The row recurrence of PascalTriangle.compute_new_row and the rows that the build
    loop threads through it, starting from [1]. */
module Rows {
  import opened Binomial

  /** A row of the triangle: Python integers are unbounded, so entries are naturals. */
  type Row = seq<nat>

  /** Python's s[1:], which is empty for an empty list. */
  function DropFirst(s: Row): (r: Row)
    ensures |r| == if |s| == 0 then 0 else |s| - 1
    ensures forall i {:trigger r[i]} :: 0 <= i < |r| ==> r[i] == s[i + 1]
  {
    if |s| == 0 then [] else s[1..]
  }

  /** Python's s[:-1], which is empty for an empty list. */
  function DropLast(s: Row): (r: Row)
    ensures |r| == if |s| == 0 then 0 else |s| - 1
    ensures forall i {:trigger r[i]} :: 0 <= i < |r| ==> r[i] == s[i]
  {
    if |s| == 0 then [] else s[..|s| - 1]
  }

  /** [sum(x) for x in zip(a, b)]: zip stops at the shorter list. */
  function ZipSum(a: Row, b: Row): (r: Row)
    ensures |r| == if |a| <= |b| then |a| else |b|
    ensures forall i {:trigger r[i]} :: 0 <= i < |r| ==> r[i] == a[i] + b[i]
  {
    if |a| == 0 || |b| == 0 then [] else [a[0] + b[0]] + ZipSum(a[1..], b[1..])
  }

  /** compute_new_row: [1] + the sums of adjacent entries + [1]. An empty row has no
      adjacent pairs, so it too yields [1, 1]. */
  function NextRow(row: Row): (r: Row)
    ensures |r| == if |row| == 0 then 2 else |row| + 1
    ensures r[0] == 1 && r[|r| - 1] == 1
    ensures forall i {:trigger r[i]} :: 1 <= i < |row| ==> r[i] == row[i - 1] + row[i]
  {
    [1] + ZipSum(DropFirst(row), DropLast(row)) + [1]
  }

  /** The row that build hands to fill_row with current_index == k (k >= 1): [1] at
      k == 1, then one compute_new_row per earlier iteration. */
  function RowAt(k: nat): (r: Row)
    requires k >= 1
    ensures |r| == k
  {
    if k == 1 then [1] else NextRow(RowAt(k - 1))
  }

  /** Row k of the loop holds exactly the binomial coefficients C(k-1, 0..k-1); in
      particular it has k entries, so reading columns 0..k-1 stays in bounds and
      reaches every entry. */
  lemma {:induction false} RowAtIsBinomial(k: nat)
    requires k >= 1
    ensures |RowAt(k)| == k
    ensures forall j :: 0 <= j < k ==> RowAt(k)[j] == Choose(k - 1, j)
  {
    if k > 1 {
      RowAtIsBinomial(k - 1);
      var prev, row := RowAt(k - 1), RowAt(k);
      forall j | 0 <= j < k
        ensures row[j] == Choose(k - 1, j)
      {
        if j == 0 {
        } else if j == k - 1 {
          ChooseDiagonal(k - 1);
        } else {
          assert row[j] == prev[j - 1] + prev[j];
        }
      }
    }
  }

  /** One entry of the row at current_index == k. */
  lemma RowAtEntry(k: nat, j: nat)
    requires 1 <= k && j < k
    ensures RowAt(k)[j] == Choose(k - 1, j)
  {
    RowAtIsBinomial(k);
  }

  /** The row at current_index == k is a palindrome, as Pascal's triangle is symmetric. */
  lemma RowAtSymmetric(k: nat, j: nat)
    requires 1 <= k && j < k
    ensures RowAt(k)[j] == RowAt(k)[k - 1 - j]
  {
    RowAtIsBinomial(k);
    BinomialEntriesMirror(k, RowAt(k), j);
  }

  /** Any row holding C(k-1, 0..k-1) mirrors itself about its middle. */
  lemma BinomialEntriesMirror(k: nat, row: Row, j: nat)
    requires 1 <= k && j < k && |row| == k
    requires forall i :: 0 <= i < k ==> row[i] == Choose(k - 1, i)
    ensures row[j] == row[k - 1 - j]
  {
    ChooseSymmetric(k - 1, j);
  }

  /** The opening rows of the triangle: with four rows the loop draws [1], [1,1],
      [1,2,1], [1,3,3,1] and computes [1,4,6,4,1] after the last one. */
  lemma FirstRows()
    ensures RowAt(1) == [1]
    ensures RowAt(2) == [1, 1]
    ensures RowAt(3) == [1, 2, 1]
    ensures RowAt(4) == [1, 3, 3, 1]
    ensures NextRow([1, 3, 3, 1]) == [1, 4, 6, 4, 1]
  {
    ThirdRow();
    FourthRow();
    NextRowOf([1, 3, 3, 1], [1, 4, 6, 4, 1]);
  }

  lemma ThirdRow()
    ensures RowAt(2) == [1, 1] && RowAt(3) == [1, 2, 1]
  {
    RowAfter(1, [1], [1, 1]);
    RowAfter(2, [1, 1], [1, 2, 1]);
  }

  lemma FourthRow()
    ensures RowAt(4) == [1, 3, 3, 1]
  {
    ThirdRow();
    RowAfter(3, [1, 2, 1], [1, 3, 3, 1]);
  }

  /** One step of the build loop on a known row. */
  lemma RowAfter(k: nat, row: Row, next: Row)
    requires k >= 1 && RowAt(k) == row
    requires |row| > 0 && |next| == |row| + 1
    requires next[0] == 1 && next[|row|] == 1
    requires forall i :: 1 <= i < |row| ==> next[i] == row[i - 1] + row[i]
    ensures RowAt(k + 1) == next
  {
    NextRowOf(row, next);
  }

  /** A candidate next row is the computed one when it has the right shape. */
  lemma NextRowOf(row: Row, next: Row)
    requires |row| > 0 && |next| == |row| + 1
    requires next[0] == 1 && next[|row|] == 1
    requires forall i :: 1 <= i < |row| ==> next[i] == row[i - 1] + row[i]
    ensures NextRow(row) == next
  {
    var r := NextRow(row);
    assert |r| == |next|;
    forall i | 0 <= i < |r|
      ensures r[i] == next[i]
    {
      if 1 <= i < |row| {
        assert r[i] == row[i - 1] + row[i];
      }
    }
  }
}
