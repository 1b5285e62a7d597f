# Charge substitution of `charges_to_rft.py`, modelled in Dafny

`charges_to_rft.py` writes fitted partial charges into a GROMACS topology
file. It takes a table of `(atom, residue, q)` rows and the lines of the
topology file, and makes one ordered pass over the lines (`parse_rft`):

- a running *current residue* is set to the first table residue name that
  occurs anywhere in a line;
- a line is an *atom-charge record* when a table atom name occurs in its
  columns `[0,7)` and its columns `[8,18)`, with every `+` and `-` removed and
  whitespace stripped, are not an atom name;
- each record is rewritten by `substitute`. That function looks up
  `(line[0:7].strip(), current residue)` in the table and puts the formatted
  charge plus two blanks in place of `line[24:34]`;
- every line, rewritten or not, is appended to the output;
- the run is accepted only if the number of rewritten lines equals the number
  of table rows.

The model is five modules:

- `Wrappers` holds `Option` and `Result`. `None` stands for Python's `None`, and `Failure` for a raised exception.
- `PyText` holds the Python `str` operations the pass relies on, with Python's semantics:
  - clamped slices;
  - `sub in s` as substring search, which the empty string always satisfies;
  - `strip()` over the characters `str.isspace` accepts;
  - `replace(c, '')`.
- `ChargeTable` holds the table rows. It also models pandas' `unique()` (distinct values in first-appearance order) and the masked lookup `charges[mask].q.values[0]`, which takes the first matching row.
- `ChargesToRft` models `substitute` as a function and `parse_rft` as a method.
  - `ParseRft` keeps the loop shape of the source. Its outer loop carries the residue, the counter and the text buffer. Two inner loops, each with an early `break`, are the methods `TrackResidue` and `RewriteLine`.
  - Each of the three methods is proved equal to a specification function:
    - `ParseRft` is proved equal to the fold `ParseRftResult`, built from `ResidueAfter`, `Rewrite`, `CountRecords` and `Concat`;
    - `TrackResidue` to `NextResidue`;
    - `RewriteLine` to `IsChargeRecord` and `Substitute`.
- `RftProperties` proves what the pass guarantees, stated on that fold.

The charge type is a type parameter `Q`. The formatting `'{: 1.6f}'.format(q)` is a function parameter `fmt: Q -> string`. Two errors are modelled:
- `LookupMiss(atom, residue)` is the `IndexError` of `.values[0]` on an empty selection. It aborts the run at the first record whose lookup fails.
- `CountMismatch(rows, substitutions)` is the failed final `assert`. Python runs that check only with assertions enabled, which is the default; under `python -O` it is skipped.

Some behaviour of the code is worth knowing; the model follows the code:

- **Duplicate keys.** A duplicate `(atom, residue)` pair in the table is not an error: the lookup takes the first row, so the charge of a later duplicate row is never written. Duplicate rows still count towards `len(charges.index)`, so the run fails with `CountMismatch` unless the file holds as many records as the table has rows.
- **Short lines.** A line too short for the fixed columns is not an error: slices clamp, so the fields of a short line are simply shorter. A record of 34 characters or fewer, its newline included, has an empty `line[34:]`. Its substitution therefore ends in the two blanks after the charge, not in a newline. For a record of 25 to 34 characters the newline is dropped. For 24 characters or fewer `line[:24]` is the whole line, so the newline moves in front of the charge. Either way the next output line is joined onto it (`SubstituteShortLine`).
- **`+` and `-`.** These are removed everywhere in columns `[8,18)`, not only at the ends.
- **Name order.** Residue names and atom names are tried in `unique()` order, which is first appearance in the table. `FirstContainedUnique` shows that the residue chosen is the residue of the earliest table row whose residue name occurs in the line. `AtomOrderIrrelevant` shows that the order of the atom names cannot change whether a line is rewritten or how: the second-column test does not depend on the atom name that matched, and `substitute` re-reads the key from `line[0:7]`.
- **No residue yet.** A record met before any residue name has appeared fails its lookup: a `None` residue matches no row.
- **Column positions.** The splice keeps columns outside `[24,34)` in place only when the formatted charge is 8 characters wide (`SpliceColumns`). For a finite charge `'{: 1.6f}'` never gives fewer than 9 characters, and gives exactly 9 for a charge of magnitude below 9.9999995. So for such a charge every rewritten line of more than 34 characters grows by one column after the charge field. For the same reason, substituting an already substituted line of at least 34 characters again, under the same table and residue, inserts one more blank (`SubstituteTwiceWide`). An 8-character formatter, which the program does not use, would return the line unchanged (`SubstituteTwiceNarrow`). These are statements about one line. On a second pass over the whole output the residue in scope is recomputed from the rewritten lines, and the new digits can change it.

## Model

| member | source | states |
|---|---|---|
| PyText.Slice | charges_to_rft.py:68 | `s[lo:hi]` with both bounds clamped to the length: its length and that character k is `s[lo + k]` |
| PyText.Contains | charges_to_rft.py:61 | `sub in s` holds exactly when `sub` occurs at some position of `s` |
| PyText.LeadingSpace | charges_to_rft.py:70 | the whitespace prefix that `strip` removes is maximal: all spaces, followed by a non-space or the end |
| PyText.TrailingSpace | charges_to_rft.py:70 | the whitespace suffix that `strip` removes is maximal: all spaces, preceded by a non-space or the start |
| PyText.StripSpec | charges_to_rft.py:99 | `strip()` returns the infix left after removing whitespace at both ends; a non-empty result neither starts nor ends with whitespace |
| PyText.RemoveAllSpec | charges_to_rft.py:69-70 | `replace(c, '')` leaves no `c`, keeps every other character (as a multiset), and is the identity when `c` does not occur |
| PyText.RemoveAllOrder | charges_to_rft.py:69-70 | `replace(c, '')` keeps the order of what it keeps: a single character is dropped exactly when it is `c`, and the result for `a + b` is the result for `a` followed by the result for `b` |
| ChargeTable.AtomColumn | charges_to_rft.py:46 | the `atom` column: one entry per row, entry i is row i's atom |
| ChargeTable.ResidueColumn | charges_to_rft.py:48 | the `residue` column: one entry per row, entry i is row i's residue |
| ChargeTable.IndexOf | charges_to_rft.py:46-48 | position of the first occurrence of a value in a column |
| ChargeTable.Unique | charges_to_rft.py:46-48 | `unique()`: the same set of values as the column, each once, ordered by first appearance in the column |
| ChargeTable.Lookup | charges_to_rft.py:102-104 | `charges[mask].q.values[0]`: `None` exactly when no row has the atom and residue of the key (always when the residue is `None`), else the charge of the first row that has them |
| ChargesToRft.FirstContainedSpec | charges_to_rft.py:60-63 | the residue loop finds a name exactly when some residue name occurs in the line, and then it is the first such name in `unique()` order |
| ChargesToRft.TrackResidue | charges_to_rft.py:60-63 | the loop with `break` leaves the current residue equal to the first residue name found in the line, or unchanged when none is |
| ChargesToRft.RewriteLine | charges_to_rft.py:66-76 | the atom-name loop rewrites (and breaks) exactly when the line is a charge record, which is exactly when `MatchedAtom` finds a name to break at; its output is then `substitute(line)`, otherwise the line is left as it was |
| ChargesToRft.Substitute | charges_to_rft.py:88-108 | fails with the stripped atom name and residue exactly when the lookup finds no row (always for a `None` residue); otherwise the output is `line[:24]`, the formatted charge of the first matching row and two blanks, then `line[34:]`, and nothing else |
| ChargesToRft.Rewrite | charges_to_rft.py:57-80 | the per-line outputs of the pass: on success, one output per input line |
| ChargesToRft.CountRecords | charges_to_rft.py:75 | `nr_substitutions` after a prefix of the file: at most the number of lines |
| ChargesToRft.ParseRft | charges_to_rft.py:29-86 | the loop with its residue, counter and buffer returns exactly what the fold `ParseRftResult` specifies, including the first lookup error and the final count check |
| RftProperties.ResidueInScope | charges_to_rft.py:56-63 | the residue in scope starts as `None`, is `None` exactly while no line so far has named a residue, and is otherwise the name found in the last line that named one |
| RftProperties.FirstContainedUnique | charges_to_rft.py:48-63 | testing residue names in `unique()` order selects the same residue as testing the residue column row by row |
| RftProperties.MatchedAtomFinds | charges_to_rft.py:66-76 | the atom-name loop breaks exactly when some candidate name passes both tests, and the name it breaks at passes them |
| RftProperties.AtomOrderIrrelevant | charges_to_rft.py:66-76 | whatever order the atom names are tried in, the loop breaks exactly when the line is a charge record, and at a name that occurs in `line[0:7]` |
| RftProperties.ClassificationUsesOnlyFields | charges_to_rft.py:66-74 | whether a line is a charge record depends only on its columns `[0,7)` and `[8,18)` and the set of atom names, not on the residue in scope |
| RftProperties.SubstituteKeepsKeyColumns | charges_to_rft.py:99-106 | a rewritten line of at least 18 characters keeps columns `[0,7)` and `[8,18)`, its lookup key and its classification |
| RftProperties.SpliceColumns | charges_to_rft.py:106 | replacing `line[24:34]` of a line of at least 34 characters by `f` keeps columns `[0,24)` in place and moves everything from column 34 on by `|f| - 10`; for `substitute`, `f` is the formatted charge and two blanks |
| RftProperties.SubstituteShortLine | charges_to_rft.py:105-106 | a record of at most 34 characters becomes `line[:24] + fmt(q) + "  "`: it ends in a blank, not a newline; a newline of a record of 24 characters or fewer stays in front of the charge |
| RftProperties.SubstituteAgain | charges_to_rft.py:99-106 | a substituted line keeps its lookup key and can be substituted again; with a formatted charge of 8 or more characters, again by the same splice |
| RftProperties.SubstituteTwiceNarrow | charges_to_rft.py:105-106 | a contrast for a formatter the program does not use: with an 8-character formatted charge, substituting a substituted line changes nothing |
| RftProperties.SubstituteTwiceWide | charges_to_rft.py:105-106 | with the 9-character charges `'{: 1.6f}'` gives for a finite charge of magnitude below 9.9999995, substituting a substituted line of at least 34 characters again, under the same residue, inserts one more blank after the charge |
| RftProperties.RewriteOutputs | charges_to_rft.py:57-80 | when the pass succeeds, output i is line i processed under the residue in scope at line i |
| RftProperties.RewriteSucceeds | charges_to_rft.py:57-80 | the pass succeeds when every line's own processing does |
| RftProperties.RewriteFirstError | charges_to_rft.py:74 | a failed pass reports the error of the first line whose processing fails, and every earlier line succeeded |
| RftProperties.NonRecordsCopied | charges_to_rft.py:66-80 | a line that is not a charge record reaches the output unchanged |
| RftProperties.RecordsSubstituted | charges_to_rft.py:74-104 | a charge record in a successful pass had a residue in scope, and its output is `substitute` with the first table row keyed by its stripped atom field and that residue |
| RftProperties.ConcatInOrder | charges_to_rft.py:80 | the output text is the line outputs in order: output i sits between the outputs before it and after it |
| RftProperties.CountIsNumberOfRecords | charges_to_rft.py:54-75 | the substitution count is the number of lines that are charge records |
| RftProperties.ParseRftAccepted | charges_to_rft.py:80-86 | `parse_rft` returns a text exactly when every line succeeds and the number of records equals the number of table rows; the text is then the concatenation of the per-line outputs; if every line succeeds but the counts differ, it fails reporting both counts |

## Left out

- `import_charges` (the pandas CSV read, lines 11-27), `export_rft` (the file write, lines 110-116) and `main` are left out. These are file I/O. The table is given as a sequence of rows.
- The file open and `readlines` in `parse_rft` (lines 41-43) are left out. The lines are a parameter, and each keeps its trailing newline. The `print` calls are left out as well.
- ParseRft: the digits `'{: 1.6f}'` produces for a float are not modelled. The charge type is a parameter and the formatting a function parameter, so no width is assumed.
- Lookup: pandas' boolean masks and `.values[0]` are modelled as "the first row whose atom and residue equal the key". Type coercions pandas might apply to the CSV columns are not modelled.
- `average_cost_function/average_cost.py` is not part of this model. It reads HDF5 files and averages floating-point matrices.
