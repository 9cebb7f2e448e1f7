# lactazole-profiling: a verified model of the read-to-score pipeline

This project models the deterministic core of lactazole-profiling. That
program turns the sequencing reads of a mutagenesis library into a matrix
of peptides, filters that matrix down to the parent peptide and its
single-point mutants, and scores every mutant by comparing its frequency in
a "reactive" (positive) pool with its frequency in an "unreactive"
(negative) pool.

The model has seven modules:

- `Wrappers` (wrappers.dfy): `Option`, `Result`, and the exceptions the code raises, as `Error` values.
- `Tables` (tables.dfy): `translation_table`, `aas`, `bases` and `codons` as constant data, with the facts about them that are proved.
- `Indexing` (indexing.dfy): the numpy operations the code is written with. These are `np.nonzero`, integer and boolean indexing (including the quirk that an empty Python list is taken as an empty integer index), `np.sum` over a boolean array, and `str.find`/`tuple.index`. A reference filter, `Where`, is defined one element at a time and proved equal to masking.
- `Design` (design.dfy): the class `PepDesign`, whose constructor and `_setup_params` set the fields `L`, `vr_mask`, `cr_mask`, `vr`, `cr` and `wt`, backed by pure mask functions.
- `PeptideMatrix` (matrix.dfy): the P matrix. It is a numpy `'<U1'` array whose cells are one letter or the pad `''`, and it keeps its width when it has no rows.
- `FastqParser` (fastq_parser.dfy):
  - `translate`, as a loop over triplets, with `find_stop`;
  - `transform_peps`, filling a preallocated 2D array;
  - `hamming_distance`;
  - lines 153-169 of `parse_sample`: translate every read, build P, then filter by length, by `'+'`, project onto the variable columns, and filter by Hamming distance below 2.
- `Scoring` (misc.dfy):
  - `_compute_F`, filling `C` row by row from a loop over `aas`;
  - `_compute_wt_freq` and `_wt_score`;
  - `compute_Y`, the elementwise ratio followed by the in-place overwrite of the parent's cells.

Division by zero in numpy gives `inf` or `nan` rather than raising. The
model therefore represents a float64 quotient as the datatype `Quotient`:
`Finite(v)`, `PosInf`, `NegInf` or `NaN`.

Behaviour of the code that the model keeps:

- `ATG GCT TAA` translates to `"MA"`: GCT codes for A, and `FastqParser.TranslationStopsAtStop` proves it.
- The parent peptide must be exactly as long as the template only when the template is nonempty. For an empty template, `vr_mask` is an empty Python list, which numpy takes as an integer index, so nothing is raised.
- `PepDesign` does not check that the parent's residues are letters of `aas`. A residue outside `aas` only makes `aas.index` raise `ValueError` in `compute_Y`, and the model returns `Err(ResidueNotInAlphabet)` there.
- The column projection `P[:, np.nonzero(vr_mask)[0]]` raises `IndexError` when a variable position lies beyond the width of P, even when no row is left. `FastqParser.FilterChain` returns `Err(ColumnOutOfBounds)` in exactly that case.

## Model

| member | source | states |
|---|---|---|
| Tables.TranslationTable | tables.py:7-24 | the dictionary entry by entry: Some(value) for each of its 64 keys, None (the KeyError) for any other string; it has no contract of its own, and KeysAreTriplets, StopCodons and ValuesInAlphabet state its properties |
| Tables.KeysAreTriplets | tables.py:7-24 | a string is a key of translation_table exactly when it is three letters over T, C, A, G |
| Tables.StopCodons | tables.py:22-23 | exactly TAA, TAG and TGA map to the stop marker `'_'` |
| Tables.ValuesInAlphabet | tables.py:7-27 | every value other than the stop marker is a letter of aas |
| Tables.ReverseCodonDecodes | tables.py:7-27 | every letter of aas is the image of a codon, the one ReverseCodon picks |
| Tables.ReverseCodonFirst | tables.py:7-38 | the codon ReverseCodon picks is the first entry of codons that codes for the letter: it sits at CodonPosition, and no earlier entry decodes to it |
| Tables.AminoAcidsAreAas | tables.py:26-27 | the letter-by-letter membership test agrees with membership in aas |
| Tables.AlphabetSorted | tables.py:26-27 | aas (the constant Tables.Aas) has 20 letters in strictly increasing order, so they are distinct, and neither `'_'` nor `'+'` is one of them |
| Tables.BasesDistinct | tables.py:29 | bases (the constant Tables.Bases) has 4 distinct nucleotides |
| Tables.CodonAt | tables.py:31-38 | entry i of the codons tuple, as written; the constant Tables.Codons lists CodonAt(0) to CodonAt(63). No contract of its own: CodonPositions and CodonsDistinct state its properties |
| Tables.CodonPositions | tables.py:29-38 | codons has 64 entries, each three letters drawn from bases, and CodonPosition locates each one |
| Tables.TripletPosition | tables.py:29-38 | every triplet over bases occurs in codons at the position CodonPosition gives |
| Tables.CodonsDistinct | tables.py:31-38 | the 64 entries of codons are pairwise distinct |
| Tables.CodonsAreTableKeys | tables.py:7-38 | a string is in codons exactly when it is a key of translation_table |
| Tables.TableKeyCount | tables.py:7-38 | translation_table has exactly 64 keys, the set of entries of codons |
| Indexing.CountTrue | fastq_parser.py:158 | np.sum of a boolean array never exceeds its length; CountTrueIsCardinality gives its value |
| Indexing.TrueIndices | fastq_parser.py:164 | np.nonzero of a mask: ascending positions, each true and each true position present, as many as the mask counts |
| Indexing.Gather | fastq_parser.py:164 | integer-array indexing a[idx]: one element per index, element k being a[idx[k]] |
| Indexing.Mask | fastq_parser.py:158 | an elementwise test over an array gives a boolean array of the same length |
| Indexing.MapSeq | fastq_parser.py:154 | a list comprehension gives one element per input element |
| Indexing.MaskIndex | design.py:54-58 | a[mask] raises exactly for a nonempty mask of the wrong length; otherwise it returns the elements at the true positions, in order |
| Indexing.BoolIndex | fastq_parser.py:158 | a[mask] with a mask of a's length returns, in order, the elements at np.nonzero(mask) |
| Indexing.Find | fastq_parser.py:64 | str.find: -1 exactly when x is absent, otherwise a position holding x with no earlier occurrence |
| Indexing.CountTrueIsCardinality | fastq_parser.py:158 | np.sum of a boolean array is the number of true positions |
| Indexing.CountTrueZero | fastq_parser.py:127 | a mask counts zero exactly when it has no true entry |
| Indexing.WhereIsBoolIndex | fastq_parser.py:158 | masking an array by an elementwise test keeps exactly the elements that pass, in order |
| Indexing.WhereWhere | fastq_parser.py:158-161 | filtering twice keeps what the conjunction of the two tests keeps |
| Indexing.WhereMap | fastq_parser.py:164-169 | filtering the images of the rows keeps the images of the rows whose image passes |
| Indexing.WhereIsSubsequence | fastq_parser.py:158-169 | a filter keeps an order-preserving subsequence: the rows at ascending positions, every position that passes included |
| Design.VariableMask | design.py:49 | vr_mask has one entry per template position; MasksComplementary states its values |
| Design.ConstantMask | design.py:50 | cr_mask has one entry per template position; MasksComplementary states its values |
| Design.IsDigit | design.py:49-50 | str.isdigit on one character of the template, for the ASCII digits; no contract of its own: MasksComplementary states that vr_mask holds exactly where it does |
| Design.MasksComplementary | design.py:49-50 | vr_mask[i] holds exactly when template[i] is a digit, and cr_mask[i] is its negation at every position |
| Design.MaskCountsPartition | design.py:49-50 | the true entries of the two masks add up to the template length |
| Design.RegionsPartition | design.py:54-55 | \|vr\| + \|cr\| = L; vr holds only digits and cr none, each at ascending template positions |
| Design.ParentVariableRegion | design.py:58 | wt_full[vr_mask] raises exactly when the template is nonempty and the parent's length differs; otherwise wt is the parent at the digit positions, in order, one letter per digit |
| Design.PepDesign.constructor | design.py:11-40 | L is the template length; masks, regions and wt as above; the object is Valid |
| Design.PepDesign.SetupParams | design.py:42-60 | sets every derived field from design and wt_full, leaving those two unchanged |
| PeptideMatrix.NonPadCount | fastq_parser.py:158 | np.sum(row != '') never exceeds the row's width; PadRowNonPadCount gives its value on a padded row |
| PeptideMatrix.PadRow | fastq_parser.py:104-108 | a row of width w holds the peptide's letters, then only pads |
| PeptideMatrix.Cells | fastq_parser.py:108 | list(pep): one cell per letter, cell j holding pep[j] |
| PeptideMatrix.PadRowNonPadCount | fastq_parser.py:104-108 | a padded row has exactly as many non-pad cells as its peptide has letters |
| FastqParser.Slice3 | fastq_parser.py:73 | the slice seq[i:i+3] has three letters, or fewer at the end of the read |
| FastqParser.Residue | fastq_parser.py:72-75 | the residue the loop appends for one slice; it has no contract of its own, and ResidueCases states its cases |
| FastqParser.RawPeptide | fastq_parser.py:70-75 | the loop appends one residue per slice: ceil(\|seq\|/3) letters; RawPeptideAt gives each one |
| FastqParser.ResidueCases | fastq_parser.py:71-75 | a slice decodes to `'+'` exactly when it is not a triplet over ACGT (an ambiguous base or a short end), to `'_'` exactly for TAA/TAG/TGA, and otherwise to its table value, a letter of aas |
| FastqParser.RawPeptideAt | fastq_parser.py:70-75 | residue k of the loop's peptide is the decoding of seq[3k:3k+3] |
| FastqParser.RawPeptideAppend | fastq_parser.py:70-75 | decoding a read whose first part is a whole number of triplets is decoding the two parts one after the other |
| FastqParser.FindStop | fastq_parser.py:63-68 | the result has no `'_'`; with a stop it is the prefix before the first one, without one it is the peptide plus `'+'` |
| FastqParser.FindStopAt | fastq_parser.py:63-68 | find_stop cuts exactly at the position of the first stop marker |
| FastqParser.Translation | fastq_parser.py:39-78 | the value translate returns, find_stop of the loop's peptide; it has no contract of its own, and Translate, TranslationAtFirstStop and TranslationWithoutStop state what it is |
| FastqParser.Translate | fastq_parser.py:39-78 | the loop plus find_stop returns Translation(seq), which never contains `'_'` |
| FastqParser.TranslationAtFirstStop | fastq_parser.py:63-77 | when triplet k is the first to decode to a stop, the output is exactly the k residues before it (`""` for k = 0) |
| FastqParser.TranslationWithoutStop | fastq_parser.py:63-77 | with no stop, the output is every decoded triplet followed by one `'+'`, ceil(\|seq\|/3) + 1 letters |
| FastqParser.Encode | tables.py:7-38 | a peptide over aas encodes to three bases per residue |
| FastqParser.EncodeDecodes | fastq_parser.py:70-75 | the loop decodes the codons of a peptide over aas back to the peptide |
| FastqParser.EncodeWithStopDecodes | fastq_parser.py:70-75 | the codons of a peptide followed by TAA decode to the peptide followed by `'_'` |
| FastqParser.TranslationRoundTrip | fastq_parser.py:39-78 | translating the codons of a peptide over aas followed by TAA returns the peptide |
| FastqParser.TranslationUnterminated | fastq_parser.py:63-78 | translating the codons of a peptide over aas without a stop returns the peptide plus `'+'` |
| FastqParser.TranslationStopsAtStop | fastq_parser.py:63-78 | ATG GCT TAA translates to "MA" |
| FastqParser.TranslationAmbiguousCodon | fastq_parser.py:70-78 | ATG NCT TAA translates to "M+" |
| FastqParser.TranslationShortFragment | fastq_parser.py:63-78 | ATG GC, a short trailing fragment and no stop, translates to "M++" |
| FastqParser.TranslationLeadingStop | fastq_parser.py:63-78 | a stop in the first triplet gives "" |
| FastqParser.MaxLength | fastq_parser.py:101 | the maximum length: no peptide is longer, and some peptide has it |
| FastqParser.Transformed | fastq_parser.py:100-110 | the P matrix of a list of peptides is rectangular with one row per peptide |
| FastqParser.TransformPeps | fastq_parser.py:80-110 | an empty list fails (max of an empty list); otherwise the filled array is the P matrix Transformed |
| FastqParser.TransformedRows | fastq_parser.py:101-108 | P has width max \|pep\|; row i is peps[i] and then pads, with \|peps[i]\| non-pad cells |
| FastqParser.Mismatches | fastq_parser.py:127 | np.sum(row != pep) for one row never exceeds the row's length; MismatchesZero, MismatchesSymmetric and MismatchesTwo state the rest |
| FastqParser.Differs | fastq_parser.py:127 | P != pep on one row: one entry per position; no further contract, MismatchesZero states that no entry is true exactly when the rows are equal |
| FastqParser.MismatchesZero | fastq_parser.py:127 | the distance between two rows is zero exactly when they are equal |
| FastqParser.MismatchesSymmetric | fastq_parser.py:127 | the distance does not depend on the order of the rows |
| FastqParser.MismatchesTwo | fastq_parser.py:127 | two mismatching columns give a distance of at least two |
| FastqParser.HammingDistance | fastq_parser.py:112-127 | one distance per row of P, none larger than the width |
| FastqParser.HammingDistanceZero | fastq_parser.py:127 | a row's distance is zero exactly when it equals pep |
| FastqParser.HasLength | fastq_parser.py:158 | the row test of line 158, exactly L non-pad cells; no contract of its own (FilterChainSurvivors states its effect) |
| FastqParser.Clean | fastq_parser.py:161 | the row test of line 161, no '+' cell; no contract of its own (FilterChainSurvivors, StoplessReadDropped state its effect) |
| FastqParser.BelowTwo | fastq_parser.py:169 | HD < 2: one entry per distance; no further contract, FilterChainSelects and FilterChainSurvivors state that exactly the rows within distance 1 of wt are kept |
| FastqParser.ProjectRow | fastq_parser.py:164 | P[:, cols] on one row; no contract of its own (ParentRowProjects and FilterChainSelects state its effect) |
| FastqParser.FilterChain | fastq_parser.py:158-169 | the chain fails exactly when a variable column lies beyond the width of P; otherwise it is a rectangle of width \|wt\| with no more rows than P |
| FastqParser.FilterChainSelects | fastq_parser.py:158-169 | the four steps are one filter: the rows passing the length, `'+'` and distance tests, in order, projected onto the variable columns |
| FastqParser.FilterChainSurvivors | fastq_parser.py:158-169 | survivors come from ascending rows with exactly L non-pad cells and no `'+'`, are within distance 1 of wt, and include every row that passes |
| FastqParser.ParentRowProjects | fastq_parser.py:164 | the parent's row projected onto the variable columns is wt |
| FastqParser.ParentRowClean | fastq_parser.py:161 | the row of a peptide without `'+'` passes the `'+'` test |
| FastqParser.ParentRowSurvives | fastq_parser.py:158-169 | a read of the parent, as long as the template and without `'+'`, survives the chain as wt |
| FastqParser.TwoMutationsDropped | fastq_parser.py:166-169 | a row differing from wt at two variable positions is dropped |
| FastqParser.ParseResult | fastq_parser.py:153-169 | the matrix parse_sample computes from the reads: Err for no reads (max of an empty list), else the chain on the P matrix of the translations; no contract of its own, and ParseSurvivors states what it keeps |
| FastqParser.ParseSample | fastq_parser.py:153-169 | translating the reads, building P and filtering gives ParseResult for the design's L, vr_mask and wt |
| FastqParser.StoplessReadDropped | fastq_parser.py:154-161 | the row of a read without a stop codon ends in `'+'` and is dropped |
| FastqParser.KeptRowPeptide | fastq_parser.py:155-161 | a row with L non-pad cells and no `'+'` holds a peptide of L letters without `'+'` |
| FastqParser.TransformedSurvivors | fastq_parser.py:155-169 | the chain on P keeps, at ascending positions idx, peptides of exactly L letters without `'+'`; kept row k is the padded row of peptide idx[k] projected onto the variable columns, within distance 1 of wt; every peptide whose row passes is kept |
| FastqParser.ParseSurvivors | fastq_parser.py:153-169 | kept row k is the translation of read idx[k], padded and projected onto the variable columns; that translation has L letters and no `'+'`, the reads are in order, the row is within distance 1 of wt, and every read whose row passes is kept |
| Scoring.Count | util/misc.py:31 | C[i][j] never exceeds the number of rows |
| Scoring.CountIsRowCount | util/misc.py:30-31 | C[i][j] is the number of rows whose column j holds aas[i] |
| Scoring.Occurrences | util/misc.py:31 | np.sum(P == aa, axis=0) for one column never exceeds the column's length; CountIsRowCount states its value |
| Scoring.Freq | util/misc.py:33 | F[i][j] = C[i][j] / n lies in [0, 1], and is zero exactly when the count is |
| Scoring.ComputeF | util/misc.py:10-34 | F has 20 rows of the width of P, and F[i][j] is the frequency of aas[i] in column j |
| Scoring.ColumnSumsToOne | util/misc.py:30-33 | when every cell of column j is a letter of aas, column j of F sums to 1 |
| Scoring.WtCountIsRowCount | util/misc.py:53 | c is the number of rows equal to wt in every column |
| Scoring.IsParent | util/misc.py:53 | np.all(P == wt, axis=1) on one row: the row is the parent's cells; no contract of its own, WtCountIsRowCount and WtFreqZero state its effect |
| Scoring.WtCount | util/misc.py:53 | c never exceeds the number of rows; WtCountIsRowCount gives its value |
| Scoring.WtFreq | util/misc.py:36-54 | the parent's frequency lies in [0, 1] |
| Scoring.WtFreqZero | util/misc.py:53-54 | the parent's frequency is zero exactly when no row is the parent |
| Scoring.WtFreqBelowFreq | util/misc.py:31-53 | the parent's frequency is at most F[index(wt[j])][j] for every column j |
| Scoring.Divide | util/misc.py:107 | np.divide is finite exactly for a nonzero divisor, nan exactly for 0/0, inf exactly for a positive dividend over 0 |
| Scoring.DivideInverts | util/misc.py:107 | a finite quotient times the divisor is the dividend |
| Scoring.WtScore | util/misc.py:56-76 | the parent's score is finite exactly when the parent occurs in the negative pool, and nan exactly when it occurs in neither pool |
| Scoring.YCell | util/misc.py:107-112 | the reference value of cell (a, j) of Y: the parent's score where aas[a] is wt[j], the ratio of the pools' frequencies elsewhere; no contract of its own, and ComputeY is proved equal to it cell by cell |
| Scoring.FindDistinct | util/misc.py:112 | aas.index(x) is the only position of aas that holds x |
| Scoring.OverwriteParentCells | util/misc.py:111-112 | cell (index(wt[i]), i) becomes the parent's score for every i and no other cell changes; it stops at a residue outside the alphabet |
| Scoring.ComputeY | util/misc.py:78-114 | fails exactly when a parent residue is outside aas; otherwise Y is 20 × \|wt\|, with the parent's score where aas[a] = wt[j] and F_pos / F_neg everywhere else |
| Scoring.IdenticalPools | util/misc.py:102-112 | a pool scored against itself gives 1 in every cell, the parent's cells included, or nan exactly where the denominator count is zero |

## Left out

- `fetch_DNA`, the `print` calls, the `.npy` output of `parse_sample` (`np.save`, `np.string_`) and the directory scan `parse_cwd` are I/O. `FastqParser.ParseSample` takes the reads as given strings and returns the filtered matrix.
- `util/plots.py` is matplotlib rendering only.
- `_Agresti_Coull_interval` and `Y_sampling_error` use floating-point `sqrt` and `log`, which have no exact counterpart over `real`.
- Floating point: frequencies and ratios are exact `real` values, not rounded float64 values.
- Scoring.Freq, Scoring.WtFreq, Scoring.ComputeF and Scoring.ComputeY require nonempty pools. For an empty pool numpy divides 0 by 0 and gives nan in every cell; that case is not modelled.
- Scoring.Divide: there is no IEEE signed zero, so `NegInf` arises only for a negative dividend. Frequencies are never negative, so `NegInf` never arises from the code.
- Scoring.ComputeY and Scoring.WtFreq require each pool to be exactly as wide as wt. numpy broadcasting of `P == wt` and of `F_pos / F_neg` for other shapes is not modelled. After `parse_sample` the width is \|wt\|.
- Design.PepDesign.constructor: requires what line 58 needs (an empty template, or a parent as long as the template) instead of modelling the `IndexError`. The pure `Design.ParentVariableRegion` states both outcomes.
- Design.IsDigit: `str.isdigit` is modelled for the ASCII digits only; other Unicode digits are not.
- FastqParser.ProjectRow: it yields a pad for a column past the end of a row. `FastqParser.FilterChain` only projects rows whose width covers every column, so this case is never exercised there.
- The P matrix is modelled as a value (rows and width), not a numpy array object. Aliasing of numpy views is not modelled. `transform_peps` and `_compute_F` fill a 2D array in place, and `compute_Y` overwrites one in place; the rest of the chain is modelled on values.
