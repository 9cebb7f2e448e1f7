/** The P matrix: a 2D numpy array of dtype '<U1' holding one peptide per
    row, right-padded with the empty string ''. A cell is either that pad or
    one residue letter, and the matrix keeps its width so that a matrix with
    no rows still has the shape numpy gives it. */
module PeptideMatrix {
  import opened Indexing

  datatype Cell = Pad | Res(aa: char)

  datatype Matrix = Matrix(rows: seq<seq<Cell>>, width: nat)

  /** Every row has the matrix's width. */
  predicate WellFormed(P: Matrix)
  {
    forall i :: 0 <= i < |P.rows| ==> |P.rows[i]| == P.width
  }

  /** list(pep): the letters of a peptide as cells. */
  function Cells(pep: string): (row: seq<Cell>)
    ensures |row| == |pep|
    ensures forall j :: 0 <= j < |pep| ==> row[j] == Res(pep[j])
  {
    MapSeq(pep, c => Res(c))
  }

  /** n pad cells. */
  function Pads(n: nat): (row: seq<Cell>)
    ensures |row| == n
    ensures forall j :: 0 <= j < n ==> row[j] == Pad
  {
    seq(n, _ => Pad)
  }

  /** A row of width w that starts with the letters of pep and is padded
      with '' after them. */
  function PadRow(pep: string, w: nat): (row: seq<Cell>)
    requires |pep| <= w
    ensures |row| == w
    ensures forall j :: 0 <= j < w ==> row[j] == if j < |pep| then Res(pep[j]) else Pad
  {
    Cells(pep) + Pads(w - |pep|)
  }

  /** np.sum(row != ''): the number of non-pad cells of a row. */
  function NonPadCount(row: seq<Cell>): (n: nat)
    ensures n <= |row|
  {
    if |row| == 0 then 0
    else NonPadCount(row[..|row| - 1]) + (if row[|row| - 1] != Pad then 1 else 0)
  }

  lemma NonPadCountAppend(a: seq<Cell>, b: seq<Cell>)
    ensures NonPadCount(a + b) == NonPadCount(a) + NonPadCount(b)
    decreases |b|
  {
    if |b| == 0 {
      assert a + b == a;
    } else {
      assert (a + b)[..|a + b| - 1] == a + b[..|b| - 1];
      NonPadCountAppend(a, b[..|b| - 1]);
    }
  }

  lemma {:induction false} NonPadCountCells(pep: string)
    ensures NonPadCount(Cells(pep)) == |pep|
  {
    if |pep| > 0 {
      var init := pep[..|pep| - 1];
      assert Cells(pep)[..|pep| - 1] == Cells(init);
      NonPadCountCells(init);
    }
  }

  lemma {:induction false} NonPadCountPads(n: nat)
    ensures NonPadCount(Pads(n)) == 0
  {
    if n > 0 {
      assert Pads(n)[..n - 1] == Pads(n - 1);
      NonPadCountPads(n - 1);
    }
  }

  /** A padded row has as many non-pad cells as its peptide has letters. */
  lemma PadRowNonPadCount(pep: string, w: nat)
    requires |pep| <= w
    ensures NonPadCount(PadRow(pep, w)) == |pep|
  {
    NonPadCountAppend(Cells(pep), Pads(w - |pep|));
    NonPadCountCells(pep);
    NonPadCountPads(w - |pep|);
  }
}
