/** The counting side of the Y score: per-residue column frequencies of a P
    matrix (_compute_F), the frequency of the parent peptide
    (_compute_wt_freq), the parent's score (_wt_score) and the Y matrix of
    positive-pool over negative-pool frequencies (compute_Y). */
module Scoring {
  import opened Wrappers
  import opened Tables
  import opened Indexing
  import opened PeptideMatrix

  /** A pool of peptides scored against a parent variable region wt: a
      nonempty P matrix whose columns are the positions of wt. */
  predicate Pool(P: Matrix, wt: string)
  {
    WellFormed(P) && 0 < |P.rows| && P.width == |wt|
  }

  /** Column j of a well-formed matrix. */
  function Column(P: Matrix, j: nat): (col: seq<Cell>)
    requires WellFormed(P) && j < P.width
    ensures |col| == |P.rows|
    ensures forall i :: 0 <= i < |P.rows| ==> col[i] == P.rows[i][j]
  {
    seq(|P.rows|, i requires 0 <= i < |P.rows| => P.rows[i][j])
  }

  /** The test P == aa on one cell. */
  function IsLetter(aa: char): Cell -> bool
  {
    c => c == Res(aa)
  }

  /** np.sum(col == aa): the cells of a column that hold aa. */
  function Occurrences(col: seq<Cell>, aa: char): (c: nat)
    ensures c <= |col|
  {
    CountTrue(Mask(col, IsLetter(aa)))
  }

  /** C[i][j] of _compute_F: the number of rows whose column j holds aa. */
  function Count(P: Matrix, aa: char, j: nat): (c: nat)
    requires WellFormed(P) && j < P.width
    ensures c <= |P.rows|
  {
    Occurrences(Column(P, j), aa)
  }

  lemma DivideAdd(a: real, b: real, n: real)
    requires n > 0.0
    ensures (a + b) / n == a / n + b / n
  {
  }

  lemma DivideMonotone(a: real, b: real, n: real)
    requires n > 0.0 && a <= b
    ensures a / n <= b / n
  {
    assert b / n - a / n == (b - a) / n;
  }

  lemma DivideAtMostOne(c: real, n: real)
    requires 0.0 <= c <= n && n > 0.0
    ensures 0.0 <= c / n <= 1.0
  {
    DivideMonotone(c, n, n);
    DivideMonotone(0.0, c, n);
  }

  /** C[i][j] counts the rows whose column j holds aa. */
  lemma CountIsRowCount(P: Matrix, aa: char, j: nat)
    requires WellFormed(P) && j < P.width
    ensures Count(P, aa, j) == |set i | 0 <= i < |P.rows| && P.rows[i][j] == Res(aa)|
  {
    var m := Mask(Column(P, j), IsLetter(aa));
    CountTrueIsCardinality(m);
    assert (set i | 0 <= i < |m| && m[i]) == set i | 0 <= i < |P.rows| && P.rows[i][j] == Res(aa);
  }

  /** F[i][j] = C[i][j] / n: the share of the rows whose column j holds aa,
      a frequency between 0 and 1. */
  function Freq(P: Matrix, aa: char, j: nat): (f: real)
    requires WellFormed(P) && 0 < |P.rows| && j < P.width
    ensures 0.0 <= f <= 1.0
    ensures f == 0.0 <==> Count(P, aa, j) == 0
  {
    var c, n := Count(P, aa, j) as real, |P.rows| as real;
    DivideAtMostOne(c, n);
    c / n
  }

  /** _compute_F: C is filled one residue row at a time, then divided by the
      number of rows. The result has one row per letter of aas and one column
      per column of P. */
  method ComputeF(P: Matrix) returns (F: seq<seq<real>>)
    requires WellFormed(P) && 0 < |P.rows|
    ensures |F| == |Aas|
    ensures forall i :: 0 <= i < |Aas| ==> |F[i]| == P.width
    ensures forall i, j :: 0 <= i < |Aas| && 0 <= j < P.width ==> F[i][j] == Freq(P, Aas[i], j)
  {
    var C := new real[|Aas|, P.width]((i, j) => 0.0);
    for i := 0 to |Aas|
      invariant forall k, c :: 0 <= k < |Aas| && 0 <= c < P.width ==>
        C[k, c] == if k < i then Count(P, Aas[k], c) as real else 0.0
    {
      // row i of C: the count of aas[i] in each column
      for j := 0 to P.width
        invariant forall k, c :: 0 <= k < |Aas| && 0 <= c < P.width ==>
          C[k, c] == if k < i || (k == i && c < j) then Count(P, Aas[k], c) as real else 0.0
      {
        C[i, j] := Count(P, Aas[i], j) as real;
      }
    }
    var n := |P.rows| as real;
    F := seq(|Aas|, i requires 0 <= i < |Aas| reads C =>
           seq(P.width, j requires 0 <= j < P.width reads C => C[i, j] / n));
  }

  lemma OccurrencesSnoc(col: seq<Cell>, x: Cell, aa: char)
    ensures Occurrences(col + [x], aa) == Occurrences(col, aa) + (if x == Res(aa) then 1 else 0)
  {
    var m := Mask(col + [x], IsLetter(aa));
    assert m[..|m| - 1] == Mask(col, IsLetter(aa));
  }

  /** The sum of np.sum(col == aa) over the letters aa of s. */
  function TotalOccurrences(col: seq<Cell>, s: seq<char>): nat
  {
    if |s| == 0 then 0 else Occurrences(col, s[0]) + TotalOccurrences(col, s[1..])
  }

  /** How many letters of s the cell x equals. */
  function Hits(x: Cell, s: seq<char>): nat
  {
    if |s| == 0 then 0 else (if x == Res(s[0]) then 1 else 0) + Hits(x, s[1..])
  }

  lemma {:induction false} TotalOccurrencesEmpty(s: seq<char>)
    ensures TotalOccurrences([], s) == 0
  {
    if |s| > 0 {
      assert Mask([], IsLetter(s[0])) == [];
      TotalOccurrencesEmpty(s[1..]);
    }
  }

  lemma {:induction false} TotalOccurrencesSnoc(col: seq<Cell>, x: Cell, s: seq<char>)
    ensures TotalOccurrences(col + [x], s) == TotalOccurrences(col, s) + Hits(x, s)
  {
    if |s| > 0 {
      OccurrencesSnoc(col, x, s[0]);
      TotalOccurrencesSnoc(col, x, s[1..]);
    }
  }

  /** Over a repetition-free alphabet a letter is hit once if it is in the
      alphabet and never otherwise. */
  lemma {:induction false} HitsLetter(y: char, s: seq<char>)
    requires Distinct(s)
    ensures Hits(Res(y), s) == if y in s then 1 else 0
  {
    if |s| > 0 {
      var rest := s[1..];
      assert Distinct(rest) by {
        assert forall i :: 0 <= i < |rest| ==> rest[i] == s[i + 1];
      }
      HitsLetter(y, rest);
      if y == s[0] {
        assert forall i :: 0 <= i < |rest| ==> rest[i] == s[i + 1] && s[i + 1] != s[0];
      }
    }
  }

  /** The sum of column j of F over the letters of s. */
  function FreqSum(P: Matrix, s: seq<char>, j: nat): real
    requires WellFormed(P) && 0 < |P.rows| && j < P.width
  {
    if |s| == 0 then 0.0 else Freq(P, s[0], j) + FreqSum(P, s[1..], j)
  }

  lemma {:induction false} FreqSumIsTotal(P: Matrix, s: seq<char>, j: nat)
    requires WellFormed(P) && 0 < |P.rows| && j < P.width
    ensures FreqSum(P, s, j) == TotalOccurrences(Column(P, j), s) as real / |P.rows| as real
  {
    if |s| > 0 {
      FreqSumIsTotal(P, s[1..], j);
      var n := |P.rows| as real;
      var a, b := Count(P, s[0], j) as real, TotalOccurrences(Column(P, j), s[1..]) as real;
      DivideAdd(a, b, n);
    }
  }

  /** A letter of aas is hit exactly once by the alphabet. */
  lemma HitsAminoAcid(y: char)
    requires IsAminoAcid(y)
    ensures Hits(Res(y), Aas) == 1
  {
    AminoAcidsAreAas(y);
    AlphabetSorted();
    HitsLetter(y, Aas);
  }

  /** A column of letters of aas holds as many occurrences of the letters
      of aas as it has cells. */
  lemma {:induction false} AminoAcidOccurrences(col: seq<Cell>)
    requires forall i :: 0 <= i < |col| ==> col[i].Res? && IsAminoAcid(col[i].aa)
    ensures TotalOccurrences(col, Aas) == |col|
  {
    if |col| == 0 {
      TotalOccurrencesEmpty(Aas);
    } else {
      var init, x := col[..|col| - 1], col[|col| - 1];
      assert col == init + [x];
      AminoAcidOccurrences(init);
      TotalOccurrencesSnoc(init, x, Aas);
      HitsAminoAcid(x.aa);
    }
  }

  /** When every cell of column j is a letter of aas, column j of F sums to
      one over the alphabet. */
  lemma ColumnSumsToOne(P: Matrix, j: nat)
    requires WellFormed(P) && 0 < |P.rows| && j < P.width
    requires forall i :: 0 <= i < |P.rows| ==> P.rows[i][j].Res? && IsAminoAcid(P.rows[i][j].aa)
    ensures FreqSum(P, Aas, j) == 1.0
  {
    var n := |P.rows| as real;
    AminoAcidOccurrences(Column(P, j));
    FreqSumIsTotal(P, Aas, j);
    assert n / n == 1.0;
  }

  /** The test np.all(P == wt, axis=1) on one row. */
  function IsParent(wt: string): seq<Cell> -> bool
  {
    row => row == Cells(wt)
  }

  /** c of _compute_wt_freq: the rows that are the parent peptide. */
  function WtCount(P: Matrix, wt: string): (c: nat)
    ensures c <= |P.rows|
  {
    CountTrue(Mask(P.rows, IsParent(wt)))
  }

  /** c counts the rows equal to the parent in every column. */
  lemma WtCountIsRowCount(P: Matrix, wt: string)
    ensures WtCount(P, wt) == |set i | 0 <= i < |P.rows| && P.rows[i] == Cells(wt)|
  {
    var m := Mask(P.rows, IsParent(wt));
    CountTrueIsCardinality(m);
    assert (set i | 0 <= i < |m| && m[i]) == set i | 0 <= i < |P.rows| && P.rows[i] == Cells(wt);
  }

  /** _compute_wt_freq: the share of the rows that are the parent. */
  function WtFreq(P: Matrix, wt: string): (f: real)
    requires Pool(P, wt)
    ensures 0.0 <= f <= 1.0
  {
    var c, n := WtCount(P, wt) as real, |P.rows| as real;
    DivideAtMostOne(c, n);
    c / n
  }

  /** The parent's frequency is zero exactly when no row is the parent. */
  lemma WtFreqZero(P: Matrix, wt: string)
    requires Pool(P, wt)
    ensures WtFreq(P, wt) == 0.0 <==> Cells(wt) !in P.rows
  {
    var m := Mask(P.rows, IsParent(wt));
    CountTrueZero(m);
    if Cells(wt) in P.rows {
      var i :| 0 <= i < |P.rows| && P.rows[i] == Cells(wt);
      assert m[i];
    }
  }

  /** Every parent read is also a read with the parent's residue at column
      j, so the parent is no more frequent than any of its own residues. */
  lemma WtFreqBelowFreq(P: Matrix, wt: string, j: nat)
    requires Pool(P, wt) && j < |wt|
    ensures WtFreq(P, wt) <= Freq(P, wt[j], j)
  {
    var m1, m2 := Mask(P.rows, IsParent(wt)), Mask(Column(P, j), IsLetter(wt[j]));
    forall i | 0 <= i < |m1| && m1[i]
      ensures m2[i]
    {
      assert P.rows[i] == Cells(wt);
    }
    CountTrueMonotone(m1, m2);
    var a, b, n := WtCount(P, wt) as real, Count(P, wt[j], j) as real, |P.rows| as real;
    DivideMonotone(a, b, n);
  }

  /** A float64 quotient: a finite value, or the inf, -inf and nan that numpy
      gives for a division by zero. */
  datatype Quotient = Finite(v: real) | PosInf | NegInf | NaN

  /** np.divide on two floats. */
  function Divide(a: real, b: real): (q: Quotient)
    ensures q.Finite? <==> b != 0.0
    ensures q == NaN <==> a == 0.0 && b == 0.0
    ensures q == PosInf <==> a > 0.0 && b == 0.0
  {
    if b != 0.0 then Finite(a / b)
    else if a > 0.0 then PosInf
    else if a < 0.0 then NegInf
    else NaN
  }

  /** A finite quotient times the divisor is the dividend. */
  lemma DivideInverts(a: real, b: real)
    requires b != 0.0
    ensures Divide(a, b).v * b == a
  {
  }

  /** _wt_score: the parent's frequency in the positive pool over its
      frequency in the negative pool. It is finite exactly when the parent
      occurs in the negative pool, and nan exactly when it occurs in
      neither. */
  function WtScore(Ppos: Matrix, Pneg: Matrix, wt: string): (q: Quotient)
    requires Pool(Ppos, wt) && Pool(Pneg, wt)
    ensures q.Finite? <==> Cells(wt) in Pneg.rows
    ensures q == NaN <==> Cells(wt) !in Ppos.rows && Cells(wt) !in Pneg.rows
  {
    WtFreqZero(Ppos, wt);
    WtFreqZero(Pneg, wt);
    Divide(WtFreq(Ppos, wt), WtFreq(Pneg, wt))
  }

  /** Cell (a, j) of the Y matrix: the parent's score where aas[a] is the
      parent's residue at j, and the ratio of the two pools' frequencies of
      the single-point mutant everywhere else. */
  function YCell(Ppos: Matrix, Pneg: Matrix, wt: string, a: nat, j: nat): Quotient
    requires Pool(Ppos, wt) && Pool(Pneg, wt) && a < |Aas| && j < |wt|
  {
    if Aas[a] == wt[j] then WtScore(Ppos, Pneg, wt)
    else Divide(Freq(Ppos, Aas[a], j), Freq(Pneg, Aas[a], j))
  }

  /** In a repetition-free sequence the position index finds is the only
      one that holds x. */
  lemma FindDistinct(s: seq<char>, x: char)
    requires Distinct(s) && x in s
    ensures forall a :: 0 <= a < |s| ==> (s[a] == x <==> a == Find(s, x))
  {
    var r := Find(s, x);
    assert s[r] == x;
  }

  /** The loop of compute_Y over a repetition-free alphabet:
      Y[alphabet.index(x), i] = wt_Y for every residue x of the parent at
      position i, and no other cell changes. It stops, returning false, where
      index raises for a residue outside the alphabet. */
  method OverwriteParentCells(Y: array2<Quotient>, alphabet: seq<char>, wt: string, wtY: Quotient) returns (ok: bool)
    requires Distinct(alphabet)
    requires Y.Length0 == |alphabet| && Y.Length1 == |wt|
    modifies Y
    ensures ok <==> forall j :: 0 <= j < |wt| ==> wt[j] in alphabet
    ensures ok ==> forall a, j :: 0 <= a < |alphabet| && 0 <= j < |wt| ==>
      Y[a, j] == if alphabet[a] == wt[j] then wtY else old(Y[a, j])
  {
    for i := 0 to |wt|
      invariant forall j :: 0 <= j < i ==> wt[j] in alphabet
      invariant forall a, j :: 0 <= a < |alphabet| && i <= j < |wt| ==> Y[a, j] == old(Y[a, j])
      invariant forall a, j :: 0 <= a < |alphabet| && 0 <= j < i ==>
        Y[a, j] == if alphabet[a] == wt[j] then wtY else old(Y[a, j])
    {
      var a := Find(alphabet, wt[i]);
      if a == -1 {
        return false;
      }
      FindDistinct(alphabet, wt[i]);
      Y[a, i] := wtY;
    }
    return true;
  }

  /** compute_Y: Y = F_pos / F_neg, after which the cell of the parent's
      residue in every column is overwritten with the parent's score. A
      parent residue outside aas makes aas.index raise. */
  method ComputeY(Ppos: Matrix, Pneg: Matrix, wt: string) returns (r: Result<seq<seq<Quotient>>>)
    requires Pool(Ppos, wt) && Pool(Pneg, wt)
    ensures r.Err? <==> exists j :: 0 <= j < |wt| && !IsAminoAcid(wt[j])
    ensures r.Err? ==> r.error == ResidueNotInAlphabet
    ensures r.Ok? ==> |r.value| == |Aas| && forall a :: 0 <= a < |Aas| ==> |r.value[a]| == |wt|
    ensures r.Ok? ==> forall a, j :: 0 <= a < |Aas| && 0 <= j < |wt| ==>
      r.value[a][j] == YCell(Ppos, Pneg, wt, a, j)
  {
    var Fpos := ComputeF(Ppos);
    var Fneg := ComputeF(Pneg);
    var Y := new Quotient[|Aas|, |wt|]((a, j) requires 0 <= a < |Aas| && 0 <= j < |wt| =>
               Divide(Fpos[a][j], Fneg[a][j]));
    var wtY := WtScore(Ppos, Pneg, wt);
    AlphabetSorted();
    var ok := OverwriteParentCells(Y, Aas, wt, wtY);
    if !ok {
      ghost var j :| 0 <= j < |wt| && wt[j] !in Aas;
      AminoAcidsAreAas(wt[j]);
      return Err(ResidueNotInAlphabet);
    }
    forall j | 0 <= j < |wt|
      ensures IsAminoAcid(wt[j])
    {
      AminoAcidsAreAas(wt[j]);
    }
    r := Ok(seq(|Aas|, a requires 0 <= a < |Aas| reads Y =>
              seq(|wt|, j requires 0 <= j < |wt| reads Y => Y[a, j])));
  }

  /** Scoring a pool against itself: every cell of Y, the parent's cells
      included, is one, or nan where the pool has no read to count. */
  lemma IdenticalPools(P: Matrix, wt: string, a: nat, j: nat)
    requires Pool(P, wt) && a < |Aas| && j < |wt|
    ensures YCell(P, P, wt, a, j) == Finite(1.0) || YCell(P, P, wt, a, j) == NaN
    ensures YCell(P, P, wt, a, j) == NaN <==>
      if Aas[a] == wt[j] then Cells(wt) !in P.rows else Count(P, Aas[a], j) == 0
  {
    var q := YCell(P, P, wt, a, j);
    var f := if Aas[a] == wt[j] then WtFreq(P, wt) else Freq(P, Aas[a], j);
    assert q == Divide(f, f);
    WtFreqZero(P, wt);
    if f != 0.0 {
      DivideInverts(f, f);
      assert (q.v - 1.0) * f == 0.0;
    }
  }
}
