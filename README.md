# alphasense core in Dafny

This project models the `alphasense` package, which loads an AlphaFold prediction and answers confidence and error queries about it. The package has three parts:

- **ModelPDB.** A one-pass parser over a PDB-like structure file.
  - DBREF records give the UniProt accession and entry name.
  - SEQRES records give the sequence, mapped through a fixed table of twenty three-letter codes.
  - ATOM records give one pLDDT score per residue and the CA coordinates. A residue-number counter decides when a new score is taken.
  - A final check compares the sequence length with the number of scores. The 1-based getters `get_residue`, `get_plddt` and `get_Ca_coord` read the result.
- **ModelPAE.** A directional predicted-aligned-error (PAE) matrix, read through one symmetrised 1-based pair lookup.
- **AlphafoldModel.** The structure and the matrix combined. It adds:
  - a pLDDT threshold test on one residue;
  - a centred, edge-clipped, odd-width window average;
  - pair enumeration: all unordered pairs, or the first residue against the rest;
  - the mean PAE over those pairs.

Files and modules:

| file | module | contents |
|---|---|---|
| `wrappers.dfy` | `Wrappers` | `Option` and `Result` |
| `stats.dfy` | `Stats` | exact mean over `real`, with bound lemmas |
| `model_pdb.dfy` | `ModelPdb` | residue table, the parser, the parsed structure and its getters |
| `model_pae.dfy` | `ModelPae` | the PAE matrix and its pair lookup |
| `alphafold_model.dfy` | `Alphafold` | the window arithmetic, the pair enumeration and the `AlphafoldModel` class |

Modelling decisions:

- **The parser: a function and a method.**
  - `ParseLines` is the specification: a fold of one `Step` per line.
  - `ParseModel` is the imperative loop. It keeps the same locals as `parse_model` and is proved equal to `Parse`.
  - Each Python exception becomes an error value, raised at the point where Python raises it:
    - an IndexError on a short or blank line gives `MissingField`;
    - a ValueError from `int`/`float` gives `BadNumber`;
    - a KeyError on an unknown residue gives `UnknownResidue`, carrying the upper-cased code;
    - the RuntimeError of the final check gives `LengthMismatch`.
- **Input as data.**
  - Lines arrive already split on whitespace.
  - Python's `int(...)` and `float(...)` are a `Conversions` parameter that yields `None` whenever Python would raise.
- **Coordinates** stay as raw field strings, as in the source. They are keyed by the integer residue number. `str(int(...))` is injective, so this is the same dictionary as keying by `str(resNum)`.
- **The model object.** `AlphafoldModel` is a class with the parsed `Pdb` and the `Pae` as constant fields. This composition stands in for the two base classes.
- **Failures and means.**
  - Failed queries return `Err(...)` values.
  - Means are exact over `real`.
  - The mean of no values is `Err(EmptyMean)`, where numpy returns NaN.
- **`del neighbours[0]`.** `get_PAEs` removes the first element from the caller's list in query-only mode. The model returns the list as it is left afterwards, as the out-parameter `neighbours`.

Behaviour of the code worth knowing, all of it modelled as written:

- **DBREF.** `alphasense/ModelPDB.py:43-45` overwrites `dbref` on every DBREF line, so the last one wins.
- **Residue numbers.** `alphasense/ModelPDB.py:55`: an ATOM line numbered at or below the counter adds no score, and the comparison on that line raises nothing for it. A CA line still needs its coordinate fields (`alphasense/ModelPDB.py:59-61`), so a short one fails as `MissingField` whatever its number.
- **The counter.** `alphasense/ModelPDB.py:57` bumps the counter by one rather than setting it to the residue number. A gap in the numbering therefore adds one score per ATOM line until the counter catches up.
- **Window queries.** `alphasense/AlphafoldModel.py:35-40` returns either the boolean verdict or the average, depending on `return_val`.
- **Pair queries.** `alphasense/AlphafoldModel.py:51`: in query-only mode an empty list fails with IndexError on `residues[0]`.
- **No post-processing.** Nothing in the code rounds a value, returns a sentinel for short residue lists, or compares the structure's length with the matrix size.

## Model

| member | source | states |
|---|---|---|
| `ModelPdb.OneLetter` | alphasense/ModelPDB.py:24-27 | a known code maps to one of the twenty one-letter amino-acid codes |
| `ModelPdb.TableInjective` | alphasense/ModelPDB.py:24-27 | the table read backwards gives every three-letter code again, so no two codes share a letter |
| `ModelPdb.OneLetterInjective` | alphasense/ModelPDB.py:24-27 | two known codes with the same letter are the same code up to case |
| `ModelPdb.Translate` | alphasense/ModelPDB.py:47-50 | succeeds exactly when every upper-cased code is in the table; then gives one letter per code, in order; otherwise reports the first unknown code, upper-cased |
| `ModelPdb.TranslateAppend` | alphasense/ModelPDB.py:47-50 | translating two code lists one after the other gives the concatenation of their translations |
| `ModelPdb.TranslateResidues` | alphasense/ModelPDB.py:48-50 | the append loop over SEQRES codes computes exactly `Translate`, stopping at the first unknown code |
| `ModelPdb.AtomStep` | alphasense/ModelPDB.py:52-64 | an ATOM line leaves the reference and the sequence alone, extends the scores by at most one value while the counter moves by the same amount, never drops a coordinate key, and fails on a line of fewer than 6 fields; `StepPlddt` and `StepCoordinates` state exactly what it appends and records |
| `ModelPdb.Step` | alphasense/ModelPDB.py:40-64 | one loop iteration only extends the sequence and the scores (the scores by at most one value, with the counter moving by the same amount), leaves scores and coordinates alone on any line not tagged ATOM, and fails with the upper-cased code on a SEQRES line holding an unknown one; `StepSequence`, `StepCoordinates`, `StepPlddt` and `StepDbref` state exactly what each record does |
| `ModelPdb.ParseLines` | alphasense/ModelPDB.py:35-64 | after any successful prefix of the loop, `currentResNum` equals the number of pLDDT values |
| `ModelPdb.ErrorPersists` | alphasense/ModelPDB.py:37-64 | once the loop fails on some prefix of the lines, the whole parse fails with that same error |
| `ModelPdb.Parse` | alphasense/ModelPDB.py:66-73 | succeeds exactly when the line loop succeeds with as many scores as residues; the result's `length` is the sequence length and it holds the loop's dbref, sequence, scores and coordinates; otherwise it fails with the loop's error or with the two counts |
| `ModelPdb.ParseModel` | alphasense/ModelPDB.py:22-73 | the imperative one-pass parser returns exactly `Parse` of its lines, every error case included |
| `ModelPdb.OtherRecordIgnored` | alphasense/ModelPDB.py:43-64 | deleting a line whose tag is not DBREF, SEQRES or ATOM, anywhere in the file, leaves the parse result unchanged |
| `ModelPdb.StepSequence` | alphasense/ModelPDB.py:47-50 | one step appends the translated codes of a SEQRES line, and any other line leaves the sequence unchanged |
| `ModelPdb.StepCoordinates` | alphasense/ModelPDB.py:58-64 | one step records a CA line's x, y, z under its residue number, and any other line leaves the coordinates unchanged |
| `ModelPdb.StepPlddt` | alphasense/ModelPDB.py:53-57 | one step appends field 11 of an ATOM line whose residue number exceeds the counter, and otherwise leaves the scores unchanged |
| `ModelPdb.StepDbref` | alphasense/ModelPDB.py:43-45 | one step sets the reference from fields 7 and 8 of a DBREF line, and any other line leaves it unchanged |
| `ModelPdb.SequenceFromSeqres` | alphasense/ModelPDB.py:47-50 | the parsed sequence is the table translation of all SEQRES codes after field 4, in file order |
| `ModelPdb.UnknownResidueAborts` | alphasense/ModelPDB.py:47-50 | a SEQRES code outside the table anywhere in the file makes the parse fail |
| `ModelPdb.DbrefFromLastDbrefLine` | alphasense/ModelPDB.py:43-45 | with no DBREF line, the reference stays unset; otherwise it is fields 7 and 8 of the last DBREF line |
| `ModelPdb.CoordinatesFromCaLines` | alphasense/ModelPDB.py:58-62 | a residue number has coordinates exactly when some CA ATOM line carries it, and they are fields 7 to 9 of the last such line |
| `ModelPdb.AtomNumbersMembers` | alphasense/ModelPDB.py:52-53 | the residue numbers collected from ATOM lines are exactly those of some ATOM line |
| `ModelPdb.ContiguousBounded` | alphasense/ModelPDB.py:53-57 | contiguous residue numbering stays between 1 and the last number |
| `ModelPdb.PlddtExtend` | alphasense/ModelPDB.py:53-57 | adding one line keeps the scores indexed by the first ATOM line of each residue |
| `ModelPdb.PlddtFromFirstAtoms` | alphasense/ModelPDB.py:53-57 | with contiguous numbering starting at 1: there are as many scores as the last residue number, and residue p's score sits at index p-1; it is field 11 of p's first ATOM line |
| `ModelPdb.ParsedPlddt` | alphasense/ModelPDB.py:96-97 | `get_plddt(p)` of a parsed, contiguously numbered structure is the score on residue p's first ATOM line |
| `ModelPdb.ParsedCaCoordinate` | alphasense/ModelPDB.py:101-102 | `get_Ca_coord(p)` of a parsed structure is the coordinates of the last CA line for p |
| `ModelPdb.ParsedCaCoordinateMissing` | alphasense/ModelPDB.py:101-102 | `get_Ca_coord(p)` fails (KeyError) when no CA line carries p |
| `ModelPdb.Pdb.Plddt` | alphasense/ModelPDB.py:96-97 | the score of a position is one of the parsed scores; `ParsedPlddt` states which one |
| `ModelPdb.Pdb.CaCoordinate` | alphasense/ModelPDB.py:101-102 | a lookup succeeds exactly when the residue number is a key of the coordinates, and then gives one of the recorded coordinates; `ParsedCaCoordinate` and `ParsedCaCoordinateMissing` state which |
| `ModelPdb.Pdb.GetResidue` | alphasense/ModelPDB.py:77-92 | one entry per requested position, in request order with duplicates kept; each entry has the position's letter, its position unless both flags are set, its coordinates exactly when asked and its score exactly when asked; with coordinates asked, it fails exactly when a position has none, and reports the first such position |
| `ModelPae.Pae.PairwisePae` | alphasense/ModelPAE.py:18-21 | the symmetrised error of a 1-based pair lies between its two directional entries |
| `ModelPae.PairwiseSymmetric` | alphasense/ModelPAE.py:19-21 | the lookup gives the same value for (a, b) and (b, a) |
| `ModelPae.PairwiseDiagonal` | alphasense/ModelPAE.py:19-21 | the lookup of (a, a) is the matrix entry itself |
| `ModelPae.PairwiseOfSymmetric` | alphasense/ModelPAE.py:18-21 | on a symmetric matrix the lookup is the plain entry |
| `ModelPae.PairwiseBounded` | alphasense/ModelPAE.py:21 | matrix entries within [lo, hi] give pair errors within [lo, hi] |
| `ModelPae.PairwiseExample` | alphasense/ModelPAE.py:18-21 | directional entries 5 and 7 for residues 2 and 4 give 6 in both orders |
| `Stats.MeanBounds` | alphasense/AlphafoldModel.py:35 | the mean of values within [lo, hi] lies within [lo, hi] |
| `Stats.MeanSingleton` | alphasense/AlphafoldModel.py:35 | the mean of one value is that value |
| `Stats.MeanConstant` | alphasense/AlphafoldModel.py:35 | the mean of a constant list is the constant |
| `Stats.MeanAtLeast` | alphasense/AlphafoldModel.py:35-38 | the mean of values that are all at least lo is at least lo |
| `Alphafold.WindowBounds` | alphasense/AlphafoldModel.py:32-33 | the window always satisfies 1 <= left <= residue < right <= length + 1 and spans at most `window` residues; on each side it reaches `window // 2` away unless clipped at 1 or at the end of the sequence |
| `Alphafold.IndexPairsCount` | alphasense/AlphafoldModel.py:49 | there are (n - lo)(n - lo - 1) / 2 index pairs i < j drawn from [lo, n) |
| `Alphafold.IndexPairsComplete` | alphasense/AlphafoldModel.py:49 | every index pair lo <= i < j < n is enumerated |
| `Alphafold.IndexPairsSorted` | alphasense/AlphafoldModel.py:49 | the index pairs come in strictly increasing lexicographic order, hence without repeats |
| `Alphafold.Combinations` | alphasense/AlphafoldModel.py:49 | as many pairs as index pairs i < j; `CombinationsEnumerate` states which |
| `Alphafold.CombinationsEnumerate` | alphasense/AlphafoldModel.py:49 | `combinations(residues, 2)` yields n(n-1)/2 pairs `(residues[i], residues[j])`, i < j, each index pair exactly once, in lexicographic (i, j) order |
| `Alphafold.CombinationsOfThree` | alphasense/AlphafoldModel.py:49 | the pairs of [a, b, c] are (a, b), (a, c), (b, c) |
| `Alphafold.QueryPairs` | alphasense/AlphafoldModel.py:50-55 | n - 1 pairs: the first residue against each later one, in order |
| `Alphafold.QueryPairsOfThree` | alphasense/AlphafoldModel.py:50-55 | in query-only mode the pairs of [a, b, c] are (a, b) and (a, c) |
| `Alphafold.ResiduePairs` | alphasense/AlphafoldModel.py:46-55 | every pair of either mode is made of residues from the list |
| `Alphafold.PairErrors` | alphasense/AlphafoldModel.py:59-64 | one error per pair, in order; `GetPaes` shows it is what the loop builds and `AveragePaeBounded` bounds its mean |
| `Alphafold.AlphafoldModel.constructor` | alphasense/AlphafoldModel.py:8-10 | the model holds the given structure and matrix |
| `Alphafold.AlphafoldModel.Load` | alphasense/AlphafoldModel.py:8-10 | construction fails exactly when parsing the structure fails, with the parse error; otherwise the model holds the parsed structure and the matrix |
| `Alphafold.AlphafoldModel.EvaluatePlddt` | alphasense/AlphafoldModel.py:14-21 | fails exactly when the residue is <= 0 or beyond the length; otherwise returns `plddt[r-1]` and whether it is at least the threshold (default 70) |
| `Alphafold.AlphafoldModel.WindowScores` | alphasense/AlphafoldModel.py:32-34 | the scores of residues left..right-1 of the window, in order |
| `Alphafold.AlphafoldModel.EvaluatePlddtWindow` | alphasense/AlphafoldModel.py:25-40 | an even or non-positive window fails first, then an out-of-range residue; it succeeds exactly when the window is odd and positive and the residue is in range, and then it returns the mean of the window's scores, or whether that mean reaches the threshold; the defaults are window 5 and threshold 70 |
| `Alphafold.AlphafoldModel.GetPaes` | alphasense/AlphafoldModel.py:44-66 | one entry per pair of the chosen mode, in order, each carrying `get_pairwise_PAE` of its pair; in query-only mode the caller's list loses its first element, and an empty list fails |
| `Alphafold.AlphafoldModel.AvgPae` | alphasense/AlphafoldModel.py:70-74 | the mean of the pair errors `get_PAEs` reports, failing when there are none; the caller's list changes as in `get_PAEs`; `AveragePaePermutation` shows the all-pairs mean ignores the order of the residues |
| `Alphafold.WindowOfOne` | alphasense/AlphafoldModel.py:32-40 | a window of 1 averages to the residue's own score, and its verdict equals `evaluate_plddt`'s |
| `Alphafold.WindowAverageBounded` | alphasense/AlphafoldModel.py:32-35 | scores within [lo, hi] give window averages within [lo, hi] |
| `Alphafold.WindowVerdictOfConfidentModel` | alphasense/AlphafoldModel.py:32-38 | when every score reaches the threshold, every window passes |
| `Alphafold.FiveResidueScores` | alphasense/AlphafoldModel.py:14-33 | scores 90, 40, 85, 30, 95 give: residue 1 passes, residue 2 fails, residue 6 is out of range, and the default windows of residues 1 and 5 are clipped to 1..3 and 3..5 |
| `Alphafold.FiveResidueScenario` | alphasense/AlphafoldModel.py:25-40 | with the same scores, the left-edge default window 1..3 averages 215/3 and passes |
| `Alphafold.FiveResidueMiddleWindow` | alphasense/AlphafoldModel.py:25-40 | with the same scores, the window of width 3 around residue 3 averages 155/3 and fails, and width 4 is rejected |
| `Alphafold.AveragePaeBounded` | alphasense/AlphafoldModel.py:70-74 | matrix entries within [lo, hi] give a mean pair error within [lo, hi] |
| `Alphafold.AveragePaePermutation` | alphasense/AlphafoldModel.py:70-74 | in all-pairs mode the average error, or its failure, is the same for any reordering of the residue list, duplicates included |
| `Alphafold.RowSumPermutation` | alphasense/AlphafoldModel.py:59-64 | the errors of one residue against a list add up to the same total for any reordering of the list |
| `Alphafold.PairSumPermutation` | alphasense/AlphafoldModel.py:59-64 | the errors of all pairs i < j of a list add up to the same total for any reordering of the list; this uses the symmetry of the pair lookup |
| `Alphafold.CombinationsSum` | alphasense/AlphafoldModel.py:49 | the errors of `combinations(residues, 2)` add up, row by row, to the total over each residue paired with every later one |

## Left out

- Reading files is not modelled. This covers `readFile_as_generator` and the JSON loading of `parse_PAE`. The parser takes the whitespace-split lines and the model takes the matrix as values.
- Text-to-number conversion is not modelled. `int(...)` and `float(...)` are the `Conversions` parameter of `Parse`, `ParseModel` and `Load`.
- Floating point is not modelled. Scores and errors are exact reals: no rounding, no NaN, no infinities.
- `Alphafold.AlphafoldModel.AvgPae`: numpy's `mean` is applied to the source's list of (label, value) tuples. The model takes the mean of the numeric values only. The mean of no pairs is `Err(EmptyMean)` rather than NaN.
- `Alphafold.AlphafoldModel.GetPaes`: the pair label `get_resID(a)-get_resID(b)` is represented by the two positions. `get_resID` is not defined in any of the modelled files, so as written `get_PAEs` raises AttributeError at `alphasense/AlphafoldModel.py:60` on its first pair. The model's `Ok` results for non-empty pair lists therefore have no counterpart in the code as it stands; they describe the evident intent. The same holds for `Alphafold.AlphafoldModel.AvgPae`: as written, `get_avg_PAE` can only return `np.mean` of an empty list (NaN) or raise.
- `Alphafold.AlphafoldModel.GetPaes`: requires a square matrix (`Square()`) and that every queried pair is inside it. numpy's lookup at `alphasense/ModelPAE.py:19-20` works on any 2-D array whose dimensions hold both indices, so a non-square matrix is not modelled; numpy's negative indexing at position 0 and its IndexError beyond the matrix are not modelled either. The same holds for `Alphafold.AlphafoldModel.AvgPae` and `ModelPae.Pae.PairwisePae`.
- `Alphafold.AlphafoldModel.EvaluatePlddt`: the range error is `OutOfRange`. In the source, building the message reads `self.name` and `self.uniprot`, which do not exist, so Python raises AttributeError instead of ValueError. The same holds for `Alphafold.AlphafoldModel.EvaluatePlddtWindow`.
- `ModelPdb.Pdb.Plddt`: requires a position in [1, length]. `get_plddt` (`alphasense/ModelPDB.py:97`) accepts 0 and negative positions through Python's negative indexing, and raises IndexError past the end; neither is modelled. Its callers check the range first (`alphasense/AlphafoldModel.py:16` and `alphasense/AlphafoldModel.py:29`).
- `ModelPdb.Pdb.GetResidue`:
  - requires every position to be in [1, length], so Python's negative indexing at position 0 and IndexError past the end are not modelled;
  - takes the positions as a list, so the varargs form `get_residue(1, 2, ...)` is not modelled.
- Aliasing in `get_PAEs` is not modelled. `del neighbours[0]` mutates the caller's list through an alias; the model returns the shortened list as `neighbours` instead.
- Upper-casing is ASCII-only. Python's `str.upper` also maps some non-ASCII letters onto ASCII ones (for example dotless 'ı' to 'I').
- Multiple inheritance is not modelled. `AlphafoldModel` holds the structure and the matrix as fields instead.
- The batch script `AlphafoldScript/get_AFmodel_metrics.py` and the files under `analysis/`, `utils/` and `jupyter/` are not part of this model. They are tabular and file glue outside the core.
  - The local-metric methods that script calls (`get_local_PAE`, `get_local_plddt`, `get_plddt_window`) are not defined in the modelled files.
  - Neither are a spatial index, residue centroids, chains, or a structure/matrix size check.
