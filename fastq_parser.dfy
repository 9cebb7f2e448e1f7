/** fastq_parser.py: in-frame translation of a read, the padded peptide
    matrix, Hamming distances, and the filter chain of parse_sample. Reading
    the .fastq file, printing and saving the matrix are not modelled. */
module FastqParser {
  import opened Wrappers
  import opened Tables
  import opened Indexing
  import opened Design
  import opened PeptideMatrix

  /** The '+' label: an ambiguous or incomplete codon, and a peptide that
      runs off the end of the read without a stop codon. */
  const Ambiguous: char := '+'

  function Min(a: int, b: int): int
  {
    if a <= b then a else b
  }

  /** seq[i:i+3], Python's slice, which is short at the end of the read. */
  function Slice3(dna: string, i: nat): (t: string)
    requires i <= |dna|
    ensures |t| == Min(3, |dna| - i)
  {
    dna[i..Min(i + 3, |dna|)]
  }

  /** The number of slices the loop of translate reads: ceil(|dna| / 3). */
  function NumTriplets(dna: string): nat
  {
    (|dna| + 2) / 3
  }

  /** The residue the loop appends for one slice: its table value, or '+'
      when the slice is not a key of translation_table (the KeyError the
      loop catches). */
  function Residue(t: string): char
  {
    match TranslationTable(t)
    case Some(aa) => aa
    case None => Ambiguous
  }

  /** A slice decodes to '+' exactly when it is not a triplet over ACGT, to
      the stop marker exactly for TAA, TAG and TGA, and otherwise to its
      table value, a letter of aas. */
  lemma ResidueCases(t: string)
    ensures Residue(t) == Ambiguous <==> !IsTriplet(t)
    ensures Residue(t) == Stop <==> t == "TAA" || t == "TAG" || t == "TGA"
    ensures Residue(t) != Ambiguous && Residue(t) != Stop ==> Residue(t) in Aas && TranslationTable(t) == Some(Residue(t))
  {
    KeysAreTriplets(t);
    StopCodons(t);
    ValuesInAlphabet(t);
    AlphabetSorted();
  }

  /** The string the loop of translate builds before find_stop: one residue
      per slice, reading non-overlapping triplets from index 0. */
  function RawPeptide(dna: string): (pep: string)
    ensures |pep| == NumTriplets(dna)
    decreases |dna|
  {
    if |dna| == 0 then ""
    else [Residue(Slice3(dna, 0))] + RawPeptide(dna[Min(3, |dna|)..])
  }

  /** Residue k of the raw peptide is the decoding of the slice at 3k. */
  lemma {:induction false} RawPeptideAt(dna: string, k: nat)
    requires k < NumTriplets(dna)
    ensures 3 * k < |dna|
    ensures RawPeptide(dna)[k] == Residue(Slice3(dna, 3 * k))
  {
    if k > 0 {
      assert |dna| > 3;
      var rest := dna[3..];
      assert NumTriplets(rest) == NumTriplets(dna) - 1;
      RawPeptideAt(rest, k - 1);
      assert RawPeptide(dna) == [Residue(Slice3(dna, 0))] + RawPeptide(rest);
      var m := 3 * (k - 1);
      assert 3 * k == m + 3;
      Slice3Shift(dna, m);
    }
  }

  /** Dropping the first triplet shifts every slice by three. */
  lemma Slice3Shift(dna: string, i: nat)
    requires 3 <= |dna| && i + 3 <= |dna|
    ensures Slice3(dna[3..], i) == Slice3(dna, i + 3)
  {
    var rest := dna[3..];
    assert rest[i..Min(i + 3, |rest|)] == dna[i + 3..Min(i + 6, |dna|)];
  }

  /** Decoding a read in two parts, the first a whole number of triplets. */
  lemma {:induction false} RawPeptideAppend(a: string, b: string)
    requires |a| % 3 == 0
    ensures RawPeptide(a + b) == RawPeptide(a) + RawPeptide(b)
    decreases |a|
  {
    if |a| > 0 {
      assert Slice3(a + b, 0) == Slice3(a, 0);
      assert (a + b)[3..] == a[3..] + b;
      RawPeptideAppend(a[3..], b);
    } else {
      assert a + b == b;
    }
  }

  /** find_stop: cut the peptide before its first stop marker, or label it
      with a trailing '+' when it has none. */
  function FindStop(peptide: string): (r: string)
    ensures Stop !in r
    ensures Stop in peptide ==> |r| < |peptide| && r == peptide[..|r|] && peptide[|r|] == Stop
    ensures Stop !in peptide ==> r == peptide + [Ambiguous]
  {
    var ind := Find(peptide, Stop);
    if ind == -1 then peptide + [Ambiguous] else peptide[..ind]
  }

  /** The value translate returns. */
  function Translation(dna: string): string
  {
    FindStop(RawPeptide(dna))
  }

  /** One step of the loop of translate: the raw peptide of the read from
      index i is the residue of the slice at i followed by the raw peptide
      from i + 3. */
  lemma RawPeptideStep(dna: string, i: nat)
    requires i < |dna|
    ensures RawPeptide(dna[i..]) == [Residue(Slice3(dna, i))] + RawPeptide(dna[Min(i + 3, |dna|)..])
  {
    var rest := dna[i..];
    assert Slice3(rest, 0) == Slice3(dna, i);
    assert rest[Min(3, |rest|)..] == dna[Min(i + 3, |dna|)..];
  }

  /** translate: append the residue of every slice seq[i:i+3] for i in
      range(0, len(seq), 3), then apply find_stop. */
  method Translate(dna: string) returns (pep: string)
    ensures pep == Translation(dna)
    ensures Stop !in pep
  {
    pep := "";
    var i: nat := 0;
    while i < |dna|
      invariant pep + RawPeptide(dna[Min(i, |dna|)..]) == RawPeptide(dna)
      decreases |dna| - i
    {
      RawPeptideStep(dna, i);
      pep := pep + [Residue(Slice3(dna, i))];
      i := i + 3;
    }
    assert dna[Min(i, |dna|)..] == "";
    assert pep == RawPeptide(dna);
    pep := FindStop(pep);
    assert pep == Translation(dna);
  }

  /** find_stop cuts exactly at the first stop marker. */
  lemma FindStopAt(peptide: string, k: nat)
    requires k < |peptide| && peptide[k] == Stop
    requires Stop !in peptide[..k]
    ensures FindStop(peptide) == peptide[..k]
  {
    var r := FindStop(peptide);
    assert forall j :: 0 <= j < k ==> peptide[..k][j] == peptide[j];
    assert forall j :: 0 <= j < |r| ==> r[j] == peptide[j];
  }

  /** When slice k is the first to decode to a stop, translate returns the
      residues of the k slices before it (nothing when k is 0). */
  lemma TranslationAtFirstStop(dna: string, k: nat)
    requires k < NumTriplets(dna)
    requires Residue(Slice3(dna, 3 * k)) == Stop
    requires forall j :: 0 <= j < k ==> Residue(Slice3(dna, 3 * j)) != Stop
    ensures |Translation(dna)| == k
    ensures forall j :: 0 <= j < k ==> Translation(dna)[j] == Residue(Slice3(dna, 3 * j))
  {
    var raw := RawPeptide(dna);
    RawPeptideAt(dna, k);
    forall j | 0 <= j < k ensures raw[j] == Residue(Slice3(dna, 3 * j)) {
      RawPeptideAt(dna, j);
    }
    FindStopAt(raw, k);
  }

  /** When no slice decodes to a stop, translate returns the residue of every
      slice followed by one '+': ceil(|dna| / 3) + 1 letters. */
  lemma TranslationWithoutStop(dna: string)
    requires forall j :: 0 <= j < NumTriplets(dna) ==> Residue(Slice3(dna, 3 * j)) != Stop
    ensures |Translation(dna)| == NumTriplets(dna) + 1
    ensures Translation(dna)[NumTriplets(dna)] == Ambiguous
    ensures forall j :: 0 <= j < NumTriplets(dna) ==> Translation(dna)[j] == Residue(Slice3(dna, 3 * j))
  {
    var raw := RawPeptide(dna);
    forall j | 0 <= j < |raw| ensures raw[j] == Residue(Slice3(dna, 3 * j)) && raw[j] != Stop {
      RawPeptideAt(dna, j);
    }
  }

  /** A single slice decodes to its one residue. */
  lemma RawPeptideOfSlice(t: string)
    requires 0 < |t| <= 3
    ensures RawPeptide(t) == [Residue(t)]
  {
    assert Slice3(t, 0) == t;
    assert t[Min(3, |t|)..] == "";
  }

  /** A read that starts with a whole codon decodes to that codon's residue
      followed by the decoding of the rest. */
  lemma RawPeptideCons(c: string, rest: string)
    requires |c| == 3
    ensures RawPeptide(c + rest) == [Residue(c)] + RawPeptide(rest)
  {
    RawPeptideAppend(c, rest);
    RawPeptideOfSlice(c);
  }

  /** A DNA sequence for a peptide over aas: the first codon of each
      residue in the order of codons. */
  function Encode(p: string): (dna: string)
    requires forall i :: 0 <= i < |p| ==> IsAminoAcid(p[i])
    ensures |dna| == 3 * |p| && |dna| % 3 == 0
  {
    if |p| == 0 then "" else ReverseCodon(p[0]) + Encode(p[1..])
  }

  /** Translating the codons of a peptide gives the peptide back. */
  lemma {:induction false} EncodeDecodes(p: string)
    requires forall i :: 0 <= i < |p| ==> IsAminoAcid(p[i])
    ensures RawPeptide(Encode(p)) == p
  {
    if |p| > 0 {
      var c := ReverseCodon(p[0]);
      ReverseCodonDecodes(p[0]);
      RawPeptideCons(c, Encode(p[1..]));
      EncodeDecodes(p[1..]);
    }
  }

  /** A peptide over aas holds no stop marker. */
  lemma StopFree(p: string)
    requires forall i :: 0 <= i < |p| ==> IsAminoAcid(p[i])
    ensures Stop !in p
  {
  }

  /** The round trip without a stop codon: the peptide gets the '+' label. */
  lemma TranslationUnterminated(p: string)
    requires forall i :: 0 <= i < |p| ==> IsAminoAcid(p[i])
    ensures Translation(Encode(p)) == p + [Ambiguous]
  {
    StopFree(p);
    EncodeDecodes(p);
  }

  /** The stop codon TAA on its own decodes to the stop marker. */
  lemma StopCodonDecodes()
    ensures RawPeptide("TAA") == [Stop]
  {
    RawPeptideOfSlice("TAA");
  }

  /** The codons of a peptide followed by a stop codon decode to the
      peptide followed by the stop marker. */
  lemma EncodeWithStopDecodes(p: string)
    requires forall i :: 0 <= i < |p| ==> IsAminoAcid(p[i])
    ensures RawPeptide(Encode(p) + "TAA") == p + [Stop]
  {
    EncodeDecodes(p);
    StopCodonDecodes();
    RawPeptideAppend(Encode(p), "TAA");
  }

  /** The round trip: a peptide encoded and followed by a stop codon
      translates to itself. */
  lemma TranslationRoundTrip(p: string)
    requires forall i :: 0 <= i < |p| ==> IsAminoAcid(p[i])
    ensures Translation(Encode(p) + "TAA") == p
  {
    EncodeWithStopDecodes(p);
    StopFree(p);
    var raw := p + [Stop];
    assert raw[..|p|] == p;
    FindStopAt(raw, |p|);
  }

  /** A read whose third codon is a stop: the residues before it. */
  lemma TranslationStopsAtStop()
    ensures Translation("ATGGCTTAA") == "MA"
  {
    RawPeptideOfSlice("TAA");
    RawPeptideCons("GCT", "TAA");
    assert "GCT" + "TAA" == "GCTTAA";
    RawPeptideCons("ATG", "GCTTAA");
    assert "ATG" + "GCTTAA" == "ATGGCTTAA";
    FindStopAt("MA_", 2);
  }

  /** An ambiguous base decodes to '+' in place; the stop still truncates. */
  lemma TranslationAmbiguousCodon()
    ensures Translation("ATGNCTTAA") == "M+"
  {
    RawPeptideOfSlice("TAA");
    RawPeptideCons("NCT", "TAA");
    assert "NCT" + "TAA" == "NCTTAA";
    RawPeptideCons("ATG", "NCTTAA");
    assert "ATG" + "NCTTAA" == "ATGNCTTAA";
    FindStopAt("M+_", 2);
  }

  /** A stop-less read with a short trailing fragment: '+' for the fragment
      and '+' for the missing stop. */
  lemma TranslationShortFragment()
    ensures Translation("ATGGC") == "M++"
  {
    RawPeptideOfSlice("GC");
    RawPeptideCons("ATG", "GC");
    assert "ATG" + "GC" == "ATGGC";
  }

  /** A read that starts with a stop translates to the empty peptide. */
  lemma TranslationLeadingStop()
    ensures Translation("TAAATG") == ""
  {
    RawPeptideOfSlice("ATG");
    RawPeptideCons("TAA", "ATG");
    assert "TAA" + "ATG" == "TAAATG";
    FindStopAt("_M", 0);
  }

  /** max([len(x) for x in peps]), which raises on an empty list: the length
      of the longest peptide. */
  function MaxLength(peps: seq<string>): (m: nat)
    requires |peps| > 0
    ensures forall i :: 0 <= i < |peps| ==> |peps[i]| <= m
    ensures exists i :: 0 <= i < |peps| && |peps[i]| == m
  {
    if |peps| == 1 then |peps[0]|
    else
      var m := MaxLength(peps[..|peps| - 1]);
      assert forall i :: 0 <= i < |peps| - 1 ==> peps[..|peps| - 1][i] == peps[i];
      if |peps[|peps| - 1]| <= m then m else |peps[|peps| - 1]|
  }

  /** The P matrix of a nonempty list of peptides: one row per peptide, as
      wide as the longest one, each row the peptide right-padded with ''. */
  function Transformed(peps: seq<string>): (P: Matrix)
    requires |peps| > 0
    ensures WellFormed(P) && |P.rows| == |peps|
  {
    var L := MaxLength(peps);
    Matrix(seq(|peps|, i requires 0 <= i < |peps| => PadRow(peps[i], L)), L)
  }

  /** Cell (k, c) of the array transform_peps fills, once the rows before i
      and the first j letters of row i have been copied in. */
  ghost function Filled(peps: seq<string>, i: nat, j: nat, k: nat, c: nat): Cell
    requires k < |peps|
  {
    if (k < i || (k == i && c < j)) && c < |peps[k]| then Res(peps[k][c]) else Pad
  }

  /** transform_peps: allocate a |peps| x L array of '' and copy each
      peptide into the start of its row. An empty list fails, since max of
      an empty list raises. */
  method TransformPeps(peps: seq<string>) returns (r: Result<Matrix>)
    ensures r.Err? <==> |peps| == 0
    ensures r.Err? ==> r.error == EmptyBatch
    ensures r.Ok? ==> r.value == Transformed(peps)
  {
    if |peps| == 0 {
      return Err(EmptyBatch);
    }
    var n, L := |peps|, MaxLength(peps);
    var P := new Cell[n, L]((i, j) => Pad);
    for i := 0 to n
      invariant forall k, c :: 0 <= k < n && 0 <= c < L ==> P[k, c] == Filled(peps, i, 0, k, c)
    {
      var pep := peps[i];
      for j := 0 to |pep|
        invariant forall k, c :: 0 <= k < n && 0 <= c < L ==> P[k, c] == Filled(peps, i, j, k, c)
      {
        P[i, j] := Res(pep[j]);
      }
    }
    var rows := seq(n, k requires 0 <= k < n reads P => seq(L, c requires 0 <= c < L reads P => P[k, c]));
    assert forall k :: 0 <= k < n ==> rows[k] == PadRow(peps[k], L);
    r := Ok(Matrix(rows, L));
  }

  /** Row i of P matrix holds the letters of peptide i, then only pads; so it
      has exactly |peps[i]| non-pad cells. */
  lemma TransformedRows(peps: seq<string>, i: nat)
    requires i < |peps|
    ensures var P := Transformed(peps);
      && P.width == MaxLength(peps)
      && (forall j :: 0 <= j < P.width ==> P.rows[i][j] == if j < |peps[i]| then Res(peps[i][j]) else Pad)
      && NonPadCount(P.rows[i]) == |peps[i]|
  {
    PadRowNonPadCount(peps[i], MaxLength(peps));
  }

  /** P != pep: the positions where two rows differ. */
  function Differs<T(==)>(a: seq<T>, b: seq<T>): (m: seq<bool>)
    requires |a| == |b|
    ensures |m| == |a|
  {
    seq(|a|, i requires 0 <= i < |a| => a[i] != b[i])
  }

  /** The number of positions where two rows of equal length differ. */
  function Mismatches<T(==)>(a: seq<T>, b: seq<T>): (d: nat)
    requires |a| == |b|
    ensures d <= |a|
  {
    CountTrue(Differs(a, b))
  }

  /** The distance is zero exactly for equal rows. */
  lemma MismatchesZero<T>(a: seq<T>, b: seq<T>)
    requires |a| == |b|
    ensures Mismatches(a, b) == 0 <==> a == b
  {
    CountTrueZero(Differs(a, b));
    if Mismatches(a, b) == 0 {
      assert forall i :: 0 <= i < |a| ==> a[i] == b[i] by {
        forall i | 0 <= i < |a| ensures a[i] == b[i] {
          assert !Differs(a, b)[i];
        }
      }
    }
  }

  /** The distance does not depend on the order of its arguments. */
  lemma MismatchesSymmetric<T>(a: seq<T>, b: seq<T>)
    requires |a| == |b|
    ensures Mismatches(a, b) == Mismatches(b, a)
  {
    assert Differs(a, b) == Differs(b, a);
  }

  /** Two differing positions make a distance of at least two. */
  lemma MismatchesTwo<T>(a: seq<T>, b: seq<T>, i: nat, j: nat)
    requires |a| == |b| && i < j < |a|
    requires a[i] != b[i] && a[j] != b[j]
    ensures Mismatches(a, b) >= 2
  {
    CountTrueTwo(Differs(a, b), i, j);
  }

  /** hamming_distance: per row of P, the number of columns where it differs
      from pep; zero exactly for a row equal to pep. */
  function HammingDistance(P: Matrix, pep: string): (hd: seq<nat>)
    requires WellFormed(P) && P.width == |pep|
    ensures |hd| == |P.rows|
    ensures forall i :: 0 <= i < |hd| ==> hd[i] <= P.width
  {
    seq(|P.rows|, i requires 0 <= i < |P.rows| => Mismatches(P.rows[i], Cells(pep)))
  }

  lemma HammingDistanceZero(P: Matrix, pep: string, i: nat)
    requires WellFormed(P) && P.width == |pep| && i < |P.rows|
    ensures HammingDistance(P, pep)[i] == 0 <==> P.rows[i] == Cells(pep)
  {
    MismatchesZero(P.rows[i], Cells(pep));
  }

  /** The row test of line 158: exactly L non-pad cells. */
  function HasLength(L: nat): seq<Cell> -> bool
  {
    row => NonPadCount(row) == L
  }

  /** The row test of line 161: no '+' cell. */
  predicate Clean(row: seq<Cell>)
  {
    Res(Ambiguous) !in row
  }

  /** P[:, cols] on one row: the cells at the given column indices. */
  function ProjectRow(cols: seq<nat>): seq<Cell> -> seq<Cell>
  {
    row => seq(|cols|, k requires 0 <= k < |cols| => if cols[k] < |row| then row[cols[k]] else Pad)
  }

  /** The row test of line 169, on a projected row: fewer than two
      mismatches from the parent. */
  function CloseTo(wt: seq<Cell>): seq<Cell> -> bool
  {
    row => |row| == |wt| && Mismatches(row, wt) < 2
  }

  /** The elementwise test HD < 2. */
  function BelowTwo(hd: seq<nat>): (m: seq<bool>)
    ensures |m| == |hd|
  {
    seq(|hd|, i requires 0 <= i < |hd| => hd[i] < 2)
  }

  /** Some variable position lies beyond the last column of P: the index
      array of line 164 is then out of bounds. */
  predicate ColumnsBeyond(P: Matrix, vrMask: seq<bool>)
  {
    exists k :: P.width <= k < |vrMask| && vrMask[k]
  }

  /** Lines 158-169 of parse_sample: keep the rows with L non-pad cells, then
      the rows without '+', project onto the variable columns, and keep the
      rows within Hamming distance 1 of the parent's variable region.
      Projecting onto a column P does not have raises IndexError, whether or
      not any row is left. */
  function FilterChain(P: Matrix, L: nat, vrMask: seq<bool>, wt: string): (r: Result<Matrix>)
    requires WellFormed(P)
    requires |wt| == CountTrue(vrMask)
    ensures r.Err? <==> ColumnsBeyond(P, vrMask)
    ensures r.Err? ==> r.error == ColumnOutOfBounds
    ensures r.Ok? ==> WellFormed(r.value) && r.value.width == |wt| && |r.value.rows| <= |P.rows|
  {
    var byLength := BoolIndex(P.rows, Mask(P.rows, HasLength(L)));
    var clean := BoolIndex(byLength, Mask(byLength, Clean));
    var cols := TrueIndices(vrMask);
    if exists k :: 0 <= k < |cols| && cols[k] >= P.width then
      assert ColumnsBeyond(P, vrMask);
      Err(ColumnOutOfBounds)
    else
      assert !ColumnsBeyond(P, vrMask);
      var projected := Matrix(MapSeq(clean, ProjectRow(cols)), |cols|);
      var hd := HammingDistance(projected, wt);
      Ok(Matrix(BoolIndex(projected.rows, BelowTwo(hd)), |cols|))
  }

  /** The combined row test of the chain, on an unprojected row. */
  function Survives(L: nat, cols: seq<nat>, wt: string): seq<Cell> -> bool
  {
    And(And(HasLength(L), Clean), Compose(ProjectRow(cols), CloseTo(Cells(wt))))
  }

  /** The chain is one filter: the rows of P that pass all three tests, in
      their order, each projected onto the variable columns. */
  lemma FilterChainSelects(P: Matrix, L: nat, vrMask: seq<bool>, wt: string)
    requires WellFormed(P) && |wt| == CountTrue(vrMask)
    requires !ColumnsBeyond(P, vrMask)
    ensures var cols := TrueIndices(vrMask);
      FilterChain(P, L, vrMask, wt).value.rows == MapSeq(Where(P.rows, Survives(L, cols, wt)), ProjectRow(cols))
  {
    var cols := TrueIndices(vrMask);
    var f, q := ProjectRow(cols), CloseTo(Cells(wt));
    var byLength := BoolIndex(P.rows, Mask(P.rows, HasLength(L)));
    var clean := BoolIndex(byLength, Mask(byLength, Clean));
    var projected := Matrix(MapSeq(clean, f), |cols|);
    var hd := HammingDistance(projected, wt);
    assert FilterChain(P, L, vrMask, wt).value.rows == BoolIndex(projected.rows, BelowTwo(hd));
    assert clean == Where(P.rows, And(HasLength(L), Clean)) by {
      WhereIsBoolIndex(P.rows, HasLength(L));
      WhereIsBoolIndex(byLength, Clean);
      WhereWhere(P.rows, HasLength(L), Clean);
    }
    assert BoolIndex(projected.rows, BelowTwo(hd)) == Where(projected.rows, q) by {
      assert BelowTwo(hd) == Mask(projected.rows, q);
      WhereIsBoolIndex(projected.rows, q);
    }
    WhereMap(clean, f, q);
    WhereWhere(P.rows, And(HasLength(L), Clean), Compose(f, q));
  }

  /** The survivors of the chain are an order-preserving subsequence of the
      rows of P: survivor k is row idx[k] projected onto the variable
      columns, for ascending positions idx; that row had L non-pad cells and
      no '+', and the survivor has the parent's width and is within distance
      1 of it. Every row passing the three tests is among them. */
  lemma FilterChainSurvivors(P: Matrix, L: nat, vrMask: seq<bool>, wt: string)
    requires WellFormed(P) && |wt| == CountTrue(vrMask)
    requires !ColumnsBeyond(P, vrMask)
    ensures var out, cols := FilterChain(P, L, vrMask, wt).value.rows, TrueIndices(vrMask);
      var idx := TrueIndices(Mask(P.rows, Survives(L, cols, wt)));
      && |out| == |idx|
      && (forall k, l :: 0 <= k < l < |idx| ==> idx[k] < idx[l])
      && (forall k :: 0 <= k < |idx| ==>
            && idx[k] < |P.rows|
            && NonPadCount(P.rows[idx[k]]) == L
            && Clean(P.rows[idx[k]])
            && out[k] == ProjectRow(cols)(P.rows[idx[k]])
            && CloseTo(Cells(wt))(out[k]))
      && (forall i :: 0 <= i < |P.rows| && Survives(L, cols, wt)(P.rows[i]) ==> i in idx)
  {
    var cols := TrueIndices(vrMask);
    var p := Survives(L, cols, wt);
    FilterChainSelects(P, L, vrMask, wt);
    WhereIsSubsequence(P.rows, p);
    var kept := Where(P.rows, p);
    var idx := TrueIndices(Mask(P.rows, p));
    forall k | 0 <= k < |idx|
      ensures NonPadCount(P.rows[idx[k]]) == L && Clean(P.rows[idx[k]])
      ensures CloseTo(Cells(wt))(ProjectRow(cols)(P.rows[idx[k]]))
    {
      assert p(kept[k]);
    }
  }

  /** The parent's row, projected onto the variable columns, is the
      parent's variable region wt. */
  lemma ParentRowProjects(d: PepDesign, w: nat)
    requires d.Valid()
    requires |d.wtFull| == d.L <= w
    ensures ProjectRow(TrueIndices(d.vrMask))(PadRow(d.wtFull, w)) == Cells(d.wt)
  {
    var cols, row := TrueIndices(d.vrMask), PadRow(d.wtFull, w);
    assert |d.vrMask| == d.L;
    forall m | 0 <= m < |cols| ensures ProjectRow(cols)(row)[m] == Cells(d.wt)[m] {
      assert cols[m] < |d.wtFull|;
    }
  }

  /** A parent row without '+' is clean. */
  lemma ParentRowClean(pep: string, w: nat)
    requires |pep| <= w && Ambiguous !in pep
    ensures Clean(PadRow(pep, w))
  {
    var row := PadRow(pep, w);
    forall j | 0 <= j < |row| ensures row[j] != Res(Ambiguous) {
      if j < |pep| {
        assert row[j] == Res(pep[j]);
      }
    }
  }

  /** A read of the parent itself passes the chain: the row of a parent as
      long as the template, without '+', keeps L non-pad cells, projects onto
      the parent's variable region and has distance 0 from it. */
  lemma ParentRowSurvives(P: Matrix, d: PepDesign, i: nat)
    requires d.Valid()
    requires WellFormed(P) && i < |P.rows|
    requires |d.wtFull| == d.L <= P.width
    requires Ambiguous !in d.wtFull
    requires P.rows[i] == PadRow(d.wtFull, P.width)
    ensures |d.wt| == CountTrue(d.vrMask) && !ColumnsBeyond(P, d.vrMask)
    ensures Cells(d.wt) in FilterChain(P, d.L, d.vrMask, d.wt).value.rows
  {
    var cols, wtc := TrueIndices(d.vrMask), Cells(d.wt);
    var p := Survives(d.L, cols, d.wt);
    assert |d.vrMask| == d.L;
    assert p(P.rows[i]) by {
      PadRowNonPadCount(d.wtFull, P.width);
      ParentRowClean(d.wtFull, P.width);
      ParentRowProjects(d, P.width);
      MismatchesZero(wtc, wtc);
    }
    FilterChainSurvivors(P, d.L, d.vrMask, d.wt);
    var idx := TrueIndices(Mask(P.rows, p));
    assert i in idx;
    var k :| 0 <= k < |idx| && idx[k] == i;
    assert FilterChain(P, d.L, d.vrMask, d.wt).value.rows[k] == wtc by {
      ParentRowProjects(d, P.width);
    }
  }

  /** A row whose variable region differs from the parent's at two positions
      fails the last test of the chain, so no survivor comes from it. */
  lemma TwoMutationsDropped(P: Matrix, L: nat, vrMask: seq<bool>, wt: string, i: nat, a: nat, b: nat)
    requires WellFormed(P) && |wt| == CountTrue(vrMask) && i < |P.rows|
    requires a < b < |wt|
    requires ProjectRow(TrueIndices(vrMask))(P.rows[i])[a] != Res(wt[a])
    requires ProjectRow(TrueIndices(vrMask))(P.rows[i])[b] != Res(wt[b])
    ensures !Survives(L, TrueIndices(vrMask), wt)(P.rows[i])
    ensures i !in TrueIndices(Mask(P.rows, Survives(L, TrueIndices(vrMask), wt)))
  {
    var projected := ProjectRow(TrueIndices(vrMask))(P.rows[i]);
    MismatchesTwo(projected, Cells(wt), a, b);
  }

  /** Lines 153-169 of parse_sample on the reads of one .fastq file: translate
      every read, build the P matrix, and apply the filter chain. */
  function ParseResult(sample: seq<string>, L: nat, vrMask: seq<bool>, wt: string): Result<Matrix>
    requires |wt| == CountTrue(vrMask)
  {
    if |sample| == 0 then Err(EmptyBatch)
    else FilterChain(Transformed(MapSeq(sample, Translation)), L, vrMask, wt)
  }

  /** parse_sample without the file reading and the saving: the reads are
      given, and the filtered P matrix is returned. */
  method ParseSample(sample: seq<string>, d: PepDesign) returns (r: Result<Matrix>)
    requires d.Valid()
    ensures |d.wt| == CountTrue(d.vrMask)
    ensures r == ParseResult(sample, d.L, d.vrMask, d.wt)
  {
    var peps: seq<string> := [];
    for i := 0 to |sample|
      invariant |peps| == i
      invariant forall k :: 0 <= k < i ==> peps[k] == Translation(sample[k])
    {
      var pep := Translate(sample[i]);
      peps := peps + [pep];
    }
    assert peps == MapSeq(sample, Translation);
    var P := TransformPeps(peps);
    if P.Err? {
      return Err(P.error);
    }
    r := FilterChain(P.value, d.L, d.vrMask, d.wt);
  }

  /** A read without a stop codon ends in '+' once translated, so its row
      fails the '+' test of line 161 and is dropped. */
  lemma StoplessReadDropped(sample: seq<string>, L: nat, vrMask: seq<bool>, wt: string, i: nat)
    requires i < |sample|
    requires forall j :: 0 <= j < NumTriplets(sample[i]) ==> Residue(Slice3(sample[i], 3 * j)) != Stop
    ensures !Clean(Transformed(MapSeq(sample, Translation)).rows[i])
    ensures !Survives(L, TrueIndices(vrMask), wt)(Transformed(MapSeq(sample, Translation)).rows[i])
  {
    var peps := MapSeq(sample, Translation);
    TranslationWithoutStop(sample[i]);
    TransformedRows(peps, i);
    var row := Transformed(peps).rows[i];
    assert row[NumTriplets(sample[i])] == Res(Ambiguous);
  }

  /** A row of the P matrix with L non-pad cells and no '+' holds a peptide
      of L letters without '+'. */
  lemma KeptRowPeptide(peps: seq<string>, i: nat, L: nat)
    requires i < |peps|
    requires NonPadCount(Transformed(peps).rows[i]) == L && Clean(Transformed(peps).rows[i])
    ensures |peps[i]| == L && Ambiguous !in peps[i]
  {
    var row := Transformed(peps).rows[i];
    TransformedRows(peps, i);
    forall j | 0 <= j < |peps[i]| ensures peps[i][j] != Ambiguous {
      assert row[j] == Res(peps[i][j]);
    }
  }

  /** The chain on the P matrix of a list of peptides keeps, at ascending
      positions, peptides of exactly L letters without '+', each row being
      the peptide's padded row projected onto the variable columns and
      within distance 1 of the parent's variable region; every peptide whose
      row passes is kept. */
  lemma TransformedSurvivors(peps: seq<string>, L: nat, vrMask: seq<bool>, wt: string)
    requires |peps| > 0 && |wt| == CountTrue(vrMask)
    requires FilterChain(Transformed(peps), L, vrMask, wt).Ok?
    ensures var P := Transformed(peps);
      var out := FilterChain(P, L, vrMask, wt).value.rows;
      var idx := TrueIndices(Mask(P.rows, Survives(L, TrueIndices(vrMask), wt)));
      && |out| == |idx|
      && (forall k, l :: 0 <= k < l < |idx| ==> idx[k] < idx[l])
      && (forall k :: 0 <= k < |idx| ==>
            && idx[k] < |peps|
            && |peps[idx[k]]| == L
            && Ambiguous !in peps[idx[k]]
            && out[k] == ProjectRow(TrueIndices(vrMask))(PadRow(peps[idx[k]], P.width))
            && CloseTo(Cells(wt))(out[k]))
      && (forall i :: 0 <= i < |peps| && Survives(L, TrueIndices(vrMask), wt)(P.rows[i]) ==> i in idx)
  {
    var P := Transformed(peps);
    var idx := TrueIndices(Mask(P.rows, Survives(L, TrueIndices(vrMask), wt)));
    var out := FilterChain(P, L, vrMask, wt).value.rows;
    FilterChainSurvivors(P, L, vrMask, wt);
    forall k | 0 <= k < |idx|
      ensures |peps[idx[k]]| == L && Ambiguous !in peps[idx[k]]
      ensures out[k] == ProjectRow(TrueIndices(vrMask))(PadRow(peps[idx[k]], P.width))
    {
      KeptRowPeptide(peps, idx[k], L);
      assert P.rows[idx[k]] == PadRow(peps[idx[k]], P.width);
    }
  }

  /** Row k that parse_sample keeps is the translation of read idx[k],
      padded and projected onto the variable columns: that translation has
      exactly L letters and no '+', the reads are in order, the row is within
      distance 1 of the parent's variable region, and every read whose row
      passes is kept. */
  lemma ParseSurvivors(sample: seq<string>, L: nat, vrMask: seq<bool>, wt: string)
    requires |wt| == CountTrue(vrMask)
    requires ParseResult(sample, L, vrMask, wt).Ok?
    ensures var peps := MapSeq(sample, Translation);
      var P, out := Transformed(peps), ParseResult(sample, L, vrMask, wt).value.rows;
      var idx := TrueIndices(Mask(P.rows, Survives(L, TrueIndices(vrMask), wt)));
      && |out| == |idx|
      && (forall k, l :: 0 <= k < l < |idx| ==> idx[k] < idx[l])
      && (forall k :: 0 <= k < |idx| ==>
            && idx[k] < |sample|
            && |peps[idx[k]]| == L
            && Ambiguous !in peps[idx[k]]
            && out[k] == ProjectRow(TrueIndices(vrMask))(PadRow(peps[idx[k]], P.width))
            && CloseTo(Cells(wt))(out[k]))
      && (forall i :: 0 <= i < |sample| && Survives(L, TrueIndices(vrMask), wt)(P.rows[i]) ==> i in idx)
  {
    TransformedSurvivors(MapSeq(sample, Translation), L, vrMask, wt);
  }
}
