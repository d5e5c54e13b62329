/** The constant residue table of a protein: the 22 one-letter codes it accepts
    and, for each of them, the full name and the residue mass. */
module ResidueTable {

  /** A C++ `char`: one byte. Only codes below 256 can occur in the text a
      protein is built from. */
  type Char8 = c: char | c as int < 256 witness 'A'

  /** The accepted one-letter codes: the 20 standard amino acids and the two
      ambiguity codes B (N or D) and Z (Q or E). */
  const Alphabet: seq<Char8> := "ARNDBCQEZGHILKMFPSTWYV"

  /** One row of the table; the side-chain volume column is not read by any
      operation and is not kept. */
  datatype Residue = Residue(name: string, mass: real)

  /** Residue masses in Daltons, exactly as tabulated. */
  const Library: map<Char8, Residue> := map[
    'A' := Residue("Alanine", 89.09),
    'R' := Residue("Arginine", 174.20),
    'N' := Residue("Asparagine", 132.12),
    'D' := Residue("Aspartic Acid", 133.10),
    'C' := Residue("Cysteine", 121.15),
    'Q' := Residue("Glutamine", 146.15),
    'E' := Residue("Glutamic Acid", 147.13),
    'G' := Residue("Glycine", 75.07),
    'H' := Residue("Histidine", 155.16),
    'I' := Residue("Isoleucine", 131.17),
    'L' := Residue("Leucine", 131.17),
    'K' := Residue("Lysine", 146.19),
    'M' := Residue("Methionine", 149.21),
    'F' := Residue("Phenylalanine", 165.19),
    'P' := Residue("Proline", 115.13),
    'S' := Residue("Serine", 105.09),
    'T' := Residue("Threonine", 119.12),
    'W' := Residue("Tryptophan", 204.23),
    'Y' := Residue("Tyrosine", 181.19),
    'V' := Residue("Valine", 117.15),
    'B' := Residue("Asparagine/Aspartic Acid", 132.67),
    'Z' := Residue("Glutamine/Glutamic Acid", 146.76)
  ]

  /** Mass of the water molecule released by each peptide bond, in Daltons. */
  const Water: real := 18.0153

  /** Lightest and heaviest tabulated residues (Glycine, Tryptophan). */
  const MinMass: real := 75.07
  const MaxMass: real := 204.23

  /** The accepted codes: the upper-case letters other than J, O, U and X. */
  predicate IsCode(c: Char8)
  {
    'A' <= c <= 'Z' && c != 'J' && c != 'O' && c != 'U' && c != 'X'
  }

  /** Single-character validation: a search of the alphabet. It accepts
      exactly the codes, and exactly the characters the table has a row for. */
  predicate CheckChar(c: Char8): (ok: bool)
    ensures ok <==> IsCode(c)
    ensures ok <==> c in Library
  {
    c in Alphabet
  }

  /** Every character of `s` is an accepted code. */
  predicate AllCodes(s: seq<Char8>)
  {
    forall i :: 0 <= i < |s| ==> IsCode(s[i])
  }

  /** Full name of an accepted code (column 0 of the table). */
  function Name(c: Char8): (r: string)
    requires IsCode(c)
    ensures |r| > 0
  {
    Library[c].name
  }

  /** Residue mass of an accepted code (column 1 of the table). */
  function Mass(c: Char8): (m: real)
    requires IsCode(c)
    ensures MinMass <= m <= MaxMass
  {
    Library[c].mass
  }
}
