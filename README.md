# ProtInfo protein chain, modelled in Dafny

`Protein.h` defines `Protein`: a mutable chain of one-letter amino-acid codes.
It comes with a constant residue table (`aaLib`) that gives each of the 22
accepted codes a full name, a residue mass and a volume. A protein is built
empty or from text. Built from text, the text is upper-cased and accepted only
when every character is a code; one bad character leaves the protein empty.
`append` adds a code at the end. `insert` puts a code at a given position.
Both ignore an unaccepted code, and `insert` also ignores a position outside
`0..len`. The queries are `size`, `seq` (the codes as text), `residueAt` (a
residue's full name) and `protWeight`. `protWeight` sums the tabulated masses,
subtracts one water (18.0153 Da) per peptide bond and divides by 1000.

The model has five modules:

- `ResidueTable` (`residue_table.dfy`) holds the alphabet
  `"ARNDBCQEZGHILKMFPSTWYV"`, the table `Library` (name and mass per code),
  the water mass and the single-character check.
  - `IsCode` is an independent description of the accepted codes: the
    upper-case letters other than J, O, U and X.
  - `CheckChar` is the source's alphabet search. It is proved to accept
    exactly the `IsCode` characters, which are exactly the keys of `Library`.
- `Normalise` (`normalise.dfy`) holds `toUpper` for a character and for a
  string, and the string check `checkChars`.
- `Weights` (`weights.dfy`) holds the weight as a function of the code
  sequence, and lemmas about it.
- `Proteins` (`protein.dfy`) holds the class `Protein`.
  - Its state is the field `codes: seq<Char8>` beside the count `len`.
    Position 0 is the front node, the one the source calls `cTerm`; `append`
    adds at the back and `insert` at any position, the front included.
  - `Valid()` holds that `len == |codes|` and that every stored character is
    a code. Every constructor and mutator keeps it.
  - Each of these loops of the source (`toUpper`, `checkChars`, the `aaAt`
    walk, `seq`, `protWeight` and the appending loop of the text constructor)
    is a method with a `while` loop. Each is proved against a specification function or
    an explicit postcondition.
- `Scenarios` (`scenarios.dfy`) holds client methods that check concrete
  cases from the contracts alone:
  - `"AG"` renders as `"AG"`, has size 2 and weighs 0.1461447 kDa.
  - `"ag"` is accepted; `"a1b"` gives the empty protein.
  - `append('a')` is ignored.
  - Inserting `R` at 1 into `"AG"` gives `"ARG"`, whose residue 0 is
    `"Alanine"`.
  - On `"A"`, the unchecked lookup of position 1 dereferences a null node.

Modelling choices:

- A C++ `char` is the type `Char8`: a Dafny `char` below 256. `toUpper`
  moves every non-capital byte down by 32, and the model does the same,
  wrapping modulo 256. So `'1'` becomes byte 0x11, and digits never reach
  the alphabet check as digits. A text with a digit is still rejected as a
  whole, but because of this shift, not because digits are missing from the
  alphabet.
- Masses are exact `real`s with the tabulated decimals. `protWeight` is in
  kilodaltons because the code divides by 1000, although its comment says
  Daltons. The model follows the code.
- An unchecked null dereference is the value `NullDereference` of the
  datatype `Deref`.

## Model

| member | source | states |
|---|---|---|
| `ResidueTable.CheckChar` | Protein.h:127-132 | A character passes exactly when it is an upper-case letter other than J, O, U, X, and exactly when the residue table has a row for it |
| `ResidueTable.Name` | Protein.h:37-60 | Every accepted code has a non-empty full name in column 0 of the table |
| `ResidueTable.Mass` | Protein.h:37-60 | Every accepted code has a column-1 mass between Glycine's 75.07 and Tryptophan's 204.23 Da |
| `Normalise.ToUpper` | Protein.h:109-115 | Capitals are kept. Lower-case letters map to their capitals. Every other byte is moved down by 32, modulo 256 |
| `Normalise.Upper` | Protein.h:98-107 | Upper-casing a string keeps its length |
| `Normalise.UpperAt` | Protein.h:98-107 | Each character of the upper-cased string is the upper-cased character at the same position |
| `Normalise.UpperCase` | Protein.h:98-107 | The accumulating loop builds exactly the upper-cased string |
| `Normalise.CheckChars` | Protein.h:117-125 | The scan returns true iff every character is an accepted code (the empty string passes). On false, some character has no table row |
| `Normalise.UpperAccepts` | Protein.h:109-115 | A byte upper-cases to a code iff it is a code or the lower-case letter of one |
| `Normalise.UpperAcceptsText` | Protein.h:141-145 | A text passes the constructor's gate iff each character is a code or the lower-case letter of one |
| `Normalise.UpperKeepsCodes` | Protein.h:98-115 | Upper-casing leaves a string of codes unchanged |
| `Normalise.IdempotentExactlyOnLetters` | Protein.h:109-115 | A second upper-casing leaves a byte's first result unchanged exactly when the byte is a letter, upper- or lower-case; every other byte is moved again |
| `Normalise.UpperIdempotentOnCodes` | Protein.h:98-115 | A second upper-casing changes nothing once the first gave only codes |
| `Weights.MassSum` | Protein.h:210-218 | The mass sum of n codes lies between n times the lightest and n times the heaviest residue mass |
| `Weights.MassSumAppend` | Protein.h:214-217 | Adding a code at the end adds exactly its mass to the sum |
| `Weights.MassSumConcat` | Protein.h:210-218 | The mass sum of two joined chains is the sum of their mass sums |
| `Weights.MassSumSplice` | Protein.h:210-218 | Putting a code between two chains adds exactly its mass |
| `Weights.MassSumInsert` | Protein.h:210-218 | Inserting a code at any position adds exactly its mass |
| `Weights.WeightAppend` | Protein.h:208-221 | Appending to the empty chain gives the code's mass over 1000. Otherwise the weight grows by (mass - water)/1000. Either way the weight strictly grows |
| `Weights.WeightInsert` | Protein.h:208-221 | Inserting a code at any position gives the same weight as appending it |
| `Weights.WeightBounds` | Protein.h:208-221 | A non-empty chain weighs at least 0.07507 kDa and at most n Tryptophans less n-1 waters |
| `Weights.WeightOfAG` | Protein.h:208-221 | "AG" weighs exactly (89.09 + 75.07 - 18.0153)/1000 = 0.1461447 kDa |
| `Proteins.Protein.constructor` | Protein.h:136-138 | The default protein is valid and empty |
| `Proteins.Protein.FromText` | Protein.h:141-151 | If the upper-cased text is all codes, the chain is that text and its count is the text's length. Otherwise the chain is empty. It is never partial |
| `Proteins.Protein.Append` | Protein.h:161-173 | A code is added at the end and the count grows by one. Any other character, lower-case included, changes nothing. Validity is kept |
| `Proteins.Protein.Insert` | Protein.h:176-199 | An unaccepted code, a negative position or one past `len` changes nothing. Otherwise the code is spliced in at position n and the count grows by one. At `len` this is an append; at 0 the code goes in front |
| `Proteins.Protein.Size` | Protein.h:202-204 | The size is the number of stored codes |
| `Proteins.Protein.AaAt` | Protein.h:89-96 | The walk reaches node n for 0 <= n < len. It reaches null for n >= len, including n == len, which passes the guard. It stops at the first node (null if empty) for negative n |
| `Proteins.Protein.ResidueAtAsWritten` | Protein.h:235-238 | As written: the name of residue n for 0 <= n < len, and residue 0's name for negative n. A null dereference for n >= len or on an empty chain |
| `Proteins.Protein.ResidueAt` | Protein.h:235-238 | Bounds-checked: found iff 0 <= n < size, and then the column-0 name of code n. Otherwise an explicit out-of-range failure carrying n |
| `Proteins.Protein.Seq` | Protein.h:224-232 | The rendering is the stored codes from the front node onward, and its length is the size |
| `Proteins.Protein.ProtWeight` | Protein.h:208-221 | The loop's result is the chain weight: 0 for the empty chain, otherwise (sum of masses - (n-1)·18.0153)/1000 |

## Findings

| source | as written | input that shows it | evidently intended | confidence | as-written member | corrected member |
|---|---|---|---|---|---|---|
| Protein.h:90 | `aaAt` rejects only `n > len`. For `n == len` (and `n > len`, or any `n` on an empty chain) the cursor is null, and `residueAt` dereferences it at line 237. A negative `n` silently reads residue 0 | `Protein p("A"); p.residueAt(1);` (likewise `Protein().residueAt(0)`) | Reject every n with n < 0 or n >= len, with an explicit out-of-range result | high (not executed) | `Proteins.Protein.ResidueAtAsWritten` | `Proteins.Protein.ResidueAt` |

## Left out

- The doubly linked `AminoAcid` nodes (`prev`/`next`, `cTerm`/`nTerm`) are replaced by the sequence `codes`.
  - `Proteins.Protein.Insert` splices the sequence instead of walking to node n-1 and relinking. The cursor walk itself is modelled once, in `AaAt`.
  - The model does not capture pointer aliasing between nodes.
- `clear()` and the destructor are manual memory management and are not modelled. The destructor frees `cTerm` and `nTerm` again after `clear()` has freed every node.
- The volume column of the residue table is not read by any operation and is not kept.
- The source holds the table `aaLib` per instance, filled in by every object; the model hoists it to the one module constant `Library`.
- `Proteins.Protein.ProtWeight` computes in exact reals. IEEE `double` rounding and the `stod` parsing of the string-encoded masses are not modelled.
- `len` and the loop counters are unbounded integers. A 32-bit `int` overflow past 2^31 - 1 residues is not modelled.
- `test.cpp` is an interactive driver built only from standard input and output. It is not part of this model.
