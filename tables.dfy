/** The genetic code and the alphabets of tables.py: constant data, and the
    structural facts about it that the translator and the scoring rely on. */
module Tables {
  import opened Wrappers

  /** The stop marker that the genetic code gives TAA, TAG and TGA. */
  const Stop: char := '_'

  /** A lookup in translation_table: Some(value) for one of its 64 keys,
      None for any other string (the KeyError the translator catches).
      Every key is three letters long, so the entries are matched letter by
      letter. */
  function TranslationTable(codon: string): Option<char>
  {
    if |codon| != 3 then None else
    match (codon[0], codon[1], codon[2])
    case ('A', 'T', 'A') => Some('I') case ('A', 'T', 'C') => Some('I') case ('A', 'T', 'T') => Some('I') case ('A', 'T', 'G') => Some('M')
    case ('A', 'C', 'A') => Some('T') case ('A', 'C', 'C') => Some('T') case ('A', 'C', 'G') => Some('T') case ('A', 'C', 'T') => Some('T')
    case ('A', 'A', 'C') => Some('N') case ('A', 'A', 'T') => Some('N') case ('A', 'A', 'A') => Some('K') case ('A', 'A', 'G') => Some('K')
    case ('A', 'G', 'C') => Some('S') case ('A', 'G', 'T') => Some('S') case ('A', 'G', 'A') => Some('R') case ('A', 'G', 'G') => Some('R')
    case ('C', 'T', 'A') => Some('L') case ('C', 'T', 'C') => Some('L') case ('C', 'T', 'G') => Some('L') case ('C', 'T', 'T') => Some('L')
    case ('C', 'C', 'A') => Some('P') case ('C', 'C', 'C') => Some('P') case ('C', 'C', 'G') => Some('P') case ('C', 'C', 'T') => Some('P')
    case ('C', 'A', 'C') => Some('H') case ('C', 'A', 'T') => Some('H') case ('C', 'A', 'A') => Some('Q') case ('C', 'A', 'G') => Some('Q')
    case ('C', 'G', 'A') => Some('R') case ('C', 'G', 'C') => Some('R') case ('C', 'G', 'G') => Some('R') case ('C', 'G', 'T') => Some('R')
    case ('G', 'T', 'A') => Some('V') case ('G', 'T', 'C') => Some('V') case ('G', 'T', 'G') => Some('V') case ('G', 'T', 'T') => Some('V')
    case ('G', 'C', 'A') => Some('A') case ('G', 'C', 'C') => Some('A') case ('G', 'C', 'G') => Some('A') case ('G', 'C', 'T') => Some('A')
    case ('G', 'A', 'C') => Some('D') case ('G', 'A', 'T') => Some('D') case ('G', 'A', 'A') => Some('E') case ('G', 'A', 'G') => Some('E')
    case ('G', 'G', 'A') => Some('G') case ('G', 'G', 'C') => Some('G') case ('G', 'G', 'G') => Some('G') case ('G', 'G', 'T') => Some('G')
    case ('T', 'C', 'A') => Some('S') case ('T', 'C', 'C') => Some('S') case ('T', 'C', 'G') => Some('S') case ('T', 'C', 'T') => Some('S')
    case ('T', 'T', 'C') => Some('F') case ('T', 'T', 'T') => Some('F') case ('T', 'T', 'A') => Some('L') case ('T', 'T', 'G') => Some('L')
    case ('T', 'A', 'C') => Some('Y') case ('T', 'A', 'T') => Some('Y') case ('T', 'A', 'A') => Some('_') case ('T', 'A', 'G') => Some('_')
    case ('T', 'G', 'C') => Some('C') case ('T', 'G', 'T') => Some('C') case ('T', 'G', 'A') => Some('_') case ('T', 'G', 'G') => Some('W')
    case _ => None
  }

  /** The amino-acid alphabet aas, in its listed (alphabetical) order. */
  const Aas: seq<char> := ['A', 'C', 'D', 'E', 'F', 'G', 'H', 'I', 'K', 'L',
                           'M', 'N', 'P', 'Q', 'R', 'S', 'T', 'V', 'W', 'Y']

  /** Membership in aas, letter by letter. The solver decides this match far
      more cheaply than membership in the 20-element sequence, and
      AminoAcidsAreAas shows the two agree. */
  predicate IsAminoAcid(c: char)
  {
    match c
    case 'A' | 'C' | 'D' | 'E' | 'F' | 'G' | 'H' | 'I' | 'K' | 'L'
       | 'M' | 'N' | 'P' | 'Q' | 'R' | 'S' | 'T' | 'V' | 'W' | 'Y' => true
    case _ => false
  }

  lemma AminoAcidsAreAas(c: char)
    ensures IsAminoAcid(c) <==> c in Aas
  {
  }

  /** The four nucleotides, in the order of bases. */
  const Bases: seq<char> := ['T', 'C', 'A', 'G']

  /** Entry i of the codons tuple. */
  function CodonAt(i: nat): string
    requires i < 64
  {
    match i
    case 0 => "TTT" case 1 => "TTG" case 2 => "TCT" case 3 => "TCG" case 4 => "TAT" case 5 => "TAG" case 6 => "TGT" case 7 => "TGG"
    case 8 => "CTT" case 9 => "CTG" case 10 => "CCT" case 11 => "CCG" case 12 => "CAT" case 13 => "CAG" case 14 => "CGT" case 15 => "CGG"
    case 16 => "ATT" case 17 => "ATG" case 18 => "ACT" case 19 => "ACG" case 20 => "AAT" case 21 => "AAG" case 22 => "AGT" case 23 => "AGG"
    case 24 => "GTT" case 25 => "GTG" case 26 => "GCT" case 27 => "GCG" case 28 => "GAT" case 29 => "GAG" case 30 => "GGT" case 31 => "GGG"
    case 32 => "TTC" case 33 => "TTA" case 34 => "TCC" case 35 => "TCA" case 36 => "TAC" case 37 => "TAA" case 38 => "TGC" case 39 => "TGA"
    case 40 => "CTC" case 41 => "CTA" case 42 => "CCC" case 43 => "CCA" case 44 => "CAC" case 45 => "CAA" case 46 => "CGC" case 47 => "CGA"
    case 48 => "ATC" case 49 => "ATA" case 50 => "ACC" case 51 => "ACA" case 52 => "AAC" case 53 => "AAA" case 54 => "AGC" case 55 => "AGA"
    case 56 => "GTC" case 57 => "GTA" case 58 => "GCC" case 59 => "GCA" case 60 => "GAC" case 61 => "GAA" case 62 => "GGC" case 63 => "GGA"
  }

  /** The codons tuple. */
  const Codons: seq<string> := seq(64, i requires 0 <= i < 64 => CodonAt(i))

  /** No element occurs twice. */
  predicate Distinct<T(==)>(s: seq<T>)
  {
    forall i, j :: 0 <= i < j < |s| ==> s[i] != s[j]
  }

  /** A three-letter string over the four bases. */
  predicate IsTriplet(t: string)
  {
    |t| == 3 && t[0] in Bases && t[1] in Bases && t[2] in Bases
  }

  /** The position of a base in bases. */
  function BaseIndex(c: char): (k: nat)
    requires c in Bases
    ensures k < |Bases| && Bases[k] == c
  {
    if c == 'T' then 0 else if c == 'C' then 1 else if c == 'A' then 2 else 3
  }

  /** The position of a triplet in the codons tuple: the tuple lists first the
      codons ending in T or G, then those ending in C or A, each half ordered
      by the bases of the first two letters. */
  function CodonPosition(t: string): nat
    requires IsTriplet(t)
  {
    var x, y, z := BaseIndex(t[0]), BaseIndex(t[1]), BaseIndex(t[2]);
    (if z == 0 || z == 3 then 0 else 32) + 2 * (4 * x + y) + (if z == 3 || z == 2 then 1 else 0)
  }

  /** Every 3-letter string over {A,C,G,T} is a key of translation_table, and
      nothing else is. */
  lemma KeysAreTriplets(t: string)
    ensures TranslationTable(t).Some? <==> IsTriplet(t)
  {
    if |t| == 3 {
      assert t == [t[0], t[1], t[2]];
    }
  }

  /** Exactly TAA, TAG and TGA map to the stop marker. */
  lemma StopCodons(t: string)
    ensures TranslationTable(t) == Some(Stop) <==> t == "TAA" || t == "TAG" || t == "TGA"
  {
  }

  /** Every value of the table other than the stop marker is a letter of aas. */
  lemma ValuesInAlphabet(t: string)
    ensures TranslationTable(t).Some? && TranslationTable(t).value != Stop ==> TranslationTable(t).value in Aas
  {
  }

  /** The first codon, in the order of the codons tuple, that codes for aa. */
  function ReverseCodon(aa: char): (t: string)
    requires IsAminoAcid(aa)
    ensures |t| == 3
  {
    match aa
    case 'A' => "GCT" case 'C' => "TGT" case 'D' => "GAT" case 'E' => "GAG"
    case 'F' => "TTT" case 'G' => "GGT" case 'H' => "CAT" case 'I' => "ATT"
    case 'K' => "AAG" case 'L' => "TTG" case 'M' => "ATG" case 'N' => "AAT"
    case 'P' => "CCT" case 'Q' => "CAG" case 'R' => "CGT" case 'S' => "TCT"
    case 'T' => "ACT" case 'V' => "GTT" case 'W' => "TGG" case 'Y' => "TAT"
  }

  /** Every letter of aas is the image of some codon: the one ReverseCodon
      picks. */
  lemma ReverseCodonDecodes(aa: char)
    requires IsAminoAcid(aa)
    ensures IsTriplet(ReverseCodon(aa)) && TranslationTable(ReverseCodon(aa)) == Some(aa)
  {
    if aa in "ACDEF" {
      ReverseCodonDecodesAF(aa);
    } else if aa in "GHIKL" {
      ReverseCodonDecodesGL(aa);
    } else if aa in "MNPQR" {
      ReverseCodonDecodesMR(aa);
    } else {
      ReverseCodonDecodesSY(aa);
    }
  }
  lemma ReverseCodonDecodesAF(aa: char)
    requires aa in "ACDEF"
    ensures IsTriplet(ReverseCodon(aa)) && TranslationTable(ReverseCodon(aa)) == Some(aa)
  {}
  lemma ReverseCodonDecodesGL(aa: char)
    requires aa in "GHIKL"
    ensures IsTriplet(ReverseCodon(aa)) && TranslationTable(ReverseCodon(aa)) == Some(aa)
  {}
  lemma ReverseCodonDecodesMR(aa: char)
    requires aa in "MNPQR"
    ensures IsTriplet(ReverseCodon(aa)) && TranslationTable(ReverseCodon(aa)) == Some(aa)
  {}
  lemma ReverseCodonDecodesSY(aa: char)
    requires aa in "STVWY"
    ensures IsTriplet(ReverseCodon(aa)) && TranslationTable(ReverseCodon(aa)) == Some(aa)
  {}

  /** ReverseCodon(aa) is the first entry of codons that codes for aa: it
      sits at CodonPosition, and no earlier entry decodes to aa. */
  lemma ReverseCodonFirst(aa: char)
    requires IsAminoAcid(aa)
    ensures IsTriplet(ReverseCodon(aa)) && CodonPosition(ReverseCodon(aa)) < 64
    ensures Codons[CodonPosition(ReverseCodon(aa))] == ReverseCodon(aa)
    ensures forall i :: 0 <= i < CodonPosition(ReverseCodon(aa)) ==> TranslationTable(Codons[i]) != Some(aa)
  {
    ReverseCodonDecodes(aa);
    TripletPosition(ReverseCodon(aa));
    forall i | 0 <= i < 64 && TranslationTable(Codons[i]) == Some(aa)
      ensures CodonPosition(ReverseCodon(aa)) <= i
    {
      assert Codons[i] == CodonAt(i);
      if i < 32 {
        if i < 8 { ReverseCodonFirst0(aa, i); }
        else if i < 16 { ReverseCodonFirst8(aa, i); }
        else if i < 24 { ReverseCodonFirst16(aa, i); }
        else { ReverseCodonFirst24(aa, i); }
      } else {
        if i < 40 { ReverseCodonFirst32(aa, i); }
        else if i < 48 { ReverseCodonFirst40(aa, i); }
        else if i < 56 { ReverseCodonFirst48(aa, i); }
        else { ReverseCodonFirst56(aa, i); }
      }
    }
  }

  /** ReverseCodonFirst for one block of eight entries of codons at a time. */
  lemma ReverseCodonFirst0(aa: char, i: nat)
    requires IsAminoAcid(aa) && 0 <= i < 8 && TranslationTable(CodonAt(i)) == Some(aa)
    ensures IsTriplet(ReverseCodon(aa)) && CodonPosition(ReverseCodon(aa)) <= i
  {
  }

  lemma ReverseCodonFirst8(aa: char, i: nat)
    requires IsAminoAcid(aa) && 8 <= i < 16 && TranslationTable(CodonAt(i)) == Some(aa)
    ensures IsTriplet(ReverseCodon(aa)) && CodonPosition(ReverseCodon(aa)) <= i
  {
  }

  lemma ReverseCodonFirst16(aa: char, i: nat)
    requires IsAminoAcid(aa) && 16 <= i < 24 && TranslationTable(CodonAt(i)) == Some(aa)
    ensures IsTriplet(ReverseCodon(aa)) && CodonPosition(ReverseCodon(aa)) <= i
  {
  }

  lemma ReverseCodonFirst24(aa: char, i: nat)
    requires IsAminoAcid(aa) && 24 <= i < 32 && TranslationTable(CodonAt(i)) == Some(aa)
    ensures IsTriplet(ReverseCodon(aa)) && CodonPosition(ReverseCodon(aa)) <= i
  {
  }

  lemma ReverseCodonFirst32(aa: char, i: nat)
    requires IsAminoAcid(aa) && 32 <= i < 40 && TranslationTable(CodonAt(i)) == Some(aa)
    ensures IsTriplet(ReverseCodon(aa)) && CodonPosition(ReverseCodon(aa)) <= i
  {
  }

  lemma ReverseCodonFirst40(aa: char, i: nat)
    requires IsAminoAcid(aa) && 40 <= i < 48 && TranslationTable(CodonAt(i)) == Some(aa)
    ensures IsTriplet(ReverseCodon(aa)) && CodonPosition(ReverseCodon(aa)) <= i
  {
  }

  lemma ReverseCodonFirst48(aa: char, i: nat)
    requires IsAminoAcid(aa) && 48 <= i < 56 && TranslationTable(CodonAt(i)) == Some(aa)
    ensures IsTriplet(ReverseCodon(aa)) && CodonPosition(ReverseCodon(aa)) <= i
  {
  }

  lemma ReverseCodonFirst56(aa: char, i: nat)
    requires IsAminoAcid(aa) && 56 <= i < 64 && TranslationTable(CodonAt(i)) == Some(aa)
    ensures IsTriplet(ReverseCodon(aa)) && CodonPosition(ReverseCodon(aa)) <= i
  {
  }

  /** aas has 20 letters in strictly increasing (alphabetical) order, so no
      letter is repeated. */
  lemma AlphabetSorted()
    ensures |Aas| == 20
    ensures forall i, j :: 0 <= i < j < |Aas| ==> Aas[i] < Aas[j]
    ensures Distinct(Aas)
    ensures Stop !in Aas && '+' !in Aas
  {
  }

  /** bases has four distinct nucleotides, the letters A, C, G and T. */
  lemma BasesDistinct()
    ensures |Bases| == 4 && Distinct(Bases)
    ensures forall c :: c in Bases <==> c == 'A' || c == 'C' || c == 'G' || c == 'T'
  {
  }

  /** Every entry of codons is a triplet over bases, found at the position
      CodonPosition gives it. */
  lemma CodonPositions()
    ensures |Codons| == 64
    ensures forall i :: 0 <= i < 64 ==> IsTriplet(Codons[i]) && CodonPosition(Codons[i]) == i
  {
    forall i | 0 <= i < 64
      ensures IsTriplet(Codons[i]) && CodonPosition(Codons[i]) == i
    {
      if i < 32 {
        if i < 8 { CodonPositions0(i); }
        else if i < 16 { CodonPositions8(i); }
        else if i < 24 { CodonPositions16(i); }
        else { CodonPositions24(i); }
      } else {
        if i < 40 { CodonPositions32(i); }
        else if i < 48 { CodonPositions40(i); }
        else if i < 56 { CodonPositions48(i); }
        else { CodonPositions56(i); }
      }
    }
  }

  /** CodonPositions for one block of eight entries of codons at a time. */
  lemma CodonPositions0(i: nat)
    requires 0 <= i < 8
    ensures IsTriplet(CodonAt(i)) && CodonPosition(CodonAt(i)) == i
  {
  }

  lemma CodonPositions8(i: nat)
    requires 8 <= i < 16
    ensures IsTriplet(CodonAt(i)) && CodonPosition(CodonAt(i)) == i
  {
  }

  lemma CodonPositions16(i: nat)
    requires 16 <= i < 24
    ensures IsTriplet(CodonAt(i)) && CodonPosition(CodonAt(i)) == i
  {
  }

  lemma CodonPositions24(i: nat)
    requires 24 <= i < 32
    ensures IsTriplet(CodonAt(i)) && CodonPosition(CodonAt(i)) == i
  {
  }

  lemma CodonPositions32(i: nat)
    requires 32 <= i < 40
    ensures IsTriplet(CodonAt(i)) && CodonPosition(CodonAt(i)) == i
  {
  }

  lemma CodonPositions40(i: nat)
    requires 40 <= i < 48
    ensures IsTriplet(CodonAt(i)) && CodonPosition(CodonAt(i)) == i
  {
  }

  lemma CodonPositions48(i: nat)
    requires 48 <= i < 56
    ensures IsTriplet(CodonAt(i)) && CodonPosition(CodonAt(i)) == i
  {
  }

  lemma CodonPositions56(i: nat)
    requires 56 <= i < 64
    ensures IsTriplet(CodonAt(i)) && CodonPosition(CodonAt(i)) == i
  {
  }

  /** codons lists 64 distinct triplets. */
  lemma CodonsDistinct()
    ensures |Codons| == 64 && Distinct(Codons)
  {
    CodonPositions();
    forall i, j | 0 <= i < j < 64
      ensures Codons[i] != Codons[j]
    {
      assert CodonPosition(Codons[i]) != CodonPosition(Codons[j]);
    }
  }

  /** CodonPosition finds every triplet in codons. */
  lemma TripletPosition(t: string)
    requires IsTriplet(t)
    ensures CodonPosition(t) < 64 && Codons[CodonPosition(t)] == t
  {
    assert t == [t[0], t[1], t[2]];
  }

  /** The entries of codons are exactly the keys of translation_table. */
  lemma CodonsAreTableKeys(t: string)
    ensures t in Codons <==> TranslationTable(t).Some?
  {
    KeysAreTriplets(t);
    CodonPositions();
    if IsTriplet(t) {
      TripletPosition(t);
    }
  }

  /** A sequence without repeated elements has as many distinct elements as
      entries. */
  lemma {:induction false} DistinctCardinality<T>(s: seq<T>)
    requires Distinct(s)
    ensures |set x | x in s| == |s|
  {
    if |s| > 0 {
      var rest := s[1..];
      assert Distinct(rest) by {
        forall i, j | 0 <= i < j < |rest| ensures rest[i] != rest[j] {
          assert rest[i] == s[i + 1] && rest[j] == s[j + 1];
        }
      }
      DistinctCardinality(rest);
      assert s[0] !in rest by {
        forall k | 0 <= k < |rest| ensures rest[k] != s[0] {
          assert rest[k] == s[k + 1];
        }
      }
      assert (set x | x in s) == (set x | x in rest) + {s[0]} by {
        assert s == [s[0]] + rest;
      }
    }
  }

  /** translation_table has exactly 64 keys: the 64 distinct codons. */
  lemma TableKeyCount()
    ensures |set t | t in Codons| == 64
    ensures forall t :: t in Codons <==> TranslationTable(t).Some?
  {
    CodonsDistinct();
    DistinctCardinality(Codons);
    forall t ensures t in Codons <==> TranslationTable(t).Some? {
      CodonsAreTableKeys(t);
    }
  }
}
