# VaspGibbs input preparation, modelled in Dafny

VaspGibbs drives VASP through a finite-difference frequency calculation.
Before the run it rewrites the INCAR, chooses which atoms of the POSCAR may
move, and afterwards it brings every atom back to the periodic image
closest to where it started. This project models those rules of
`vaspgibbs/utils.py` and proves what they guarantee:

- `Incar` — `prepare_incar`:
  - sets IBRION, or appends it when missing;
  - deletes NSW and forces `ISTART = 1` and `ICHARG = 0`;
  - works on a token view of the file, in which an assignment one of the
    source's patterns matches is a token of its own;
  - fails on an empty file without IBRION, as line 22 does.
- `PoscarRead` — the discrete part of `read_poscar`:
  - the species lookup `elements[i <= cumsum - 1][0]`;
  - the atom block, which is the longest prefix of coordinate lines;
  - the flag fields that follow the coordinates, where a line is split on
    the same characters as Python's `str.split()`.
- `PoscarWrite` — the element line and the count line of `write_poscar`:
  - the distinct elements in order of first appearance;
  - their counts;
  - the flag fields of every atom line.
- `Selection` — the selection rule of `prepare_poscar`, which works in
  place on the atom list:
  - listed atoms (by element or by index) relax and the others freeze;
  - then the `top` atoms with the largest wrapped height relax too;
  - an empty list with `top == 0` selects everything.
- `Reposition` — `reposition`:
  - the three nested loops pick, for each atom, the first of the eight
    shifts in {0, -1}³ with the smallest distance to the old position;
  - the atoms are updated in place.
- `Common` — atoms, positions, flags and the decimal rendering of integers
  (`str(i)`, `"%d"`).

Coordinates, heights and distances are exact reals. The Cartesian
distance, the coordinate regular expression and the number parsing of an
atom line are parameters of the operations that use them.

## Model

| member | source | states |
|---|---|---|
| Common.NatToString | vaspgibbs/utils.py:117 | `str(i)` is a non-empty string of decimal digits with no leading zero |
| Common.NatToStringRoundTrip | vaspgibbs/utils.py:117 | reading the digits of `str(i)` back gives `i` |
| Common.NatToStringInjective | vaspgibbs/utils.py:117 | two different indices never have the same `str(i)`, so naming an index in the list selects that atom only |
| Common.IntToString | vaspgibbs/utils.py:20-22 | `"%d"` starts with a minus sign exactly for a negative number; the rest is decimal digits whose value is the magnitude |
| Incar.RenderConcat | vaspgibbs/utils.py:22 | the text of two token runs one after the other is the concatenation of their texts |
| Incar.SetKey | vaspgibbs/utils.py:20-28 | the substitution with a group gives every assignment of the key the new value and keeps its key and separator in place; every other token is unchanged and the length is kept |
| Incar.DropKey | vaspgibbs/utils.py:24 | after the NSW substitution no NSW assignment is left, and every remaining token comes from the file |
| Incar.DropKeyCounts | vaspgibbs/utils.py:24 | every token other than an NSW assignment occurs in the result as often as in the file |
| Incar.DropKeySingle | vaspgibbs/utils.py:24 | a single token is deleted when it assigns the key and kept otherwise; with the concatenation lemma below, the deletion filters the file in order |
| Incar.KeyedRenderNonEmpty | vaspgibbs/utils.py:19-22 | a file that assigns a key has non-empty text, so `old_incar[-1]` is evaluated only on a file that has some text |
| Incar.HasKeyConcat | vaspgibbs/utils.py:22 | a key is assigned in an appended file iff it is assigned in one of the parts |
| Incar.DropKeyConcat | vaspgibbs/utils.py:22-24 | deleting NSW from an appended file deletes it from each part |
| Incar.SameShapeHasKey | vaspgibbs/utils.py:19-28 | rewriting values in place never changes which keys are assigned |
| Incar.DropKeySameShape | vaspgibbs/utils.py:24-28 | deleting NSW keeps two files that are equal up to some values (not NSW's) equal up to those values |
| Incar.DropKeyKeeps | vaspgibbs/utils.py:24 | deleting NSW neither adds nor removes an assignment of any other key |
| Incar.DropKeyAbsent | vaspgibbs/utils.py:24 | deleting an absent key leaves the file unchanged |
| Incar.DropKeyOthers | vaspgibbs/utils.py:24 | deleting NSW keeps the untouched text, in order |
| Incar.SetKeyOthers | vaspgibbs/utils.py:20-28 | rewriting the value of IBRION, ISTART or ICHARG keeps the untouched text, in order |
| Incar.OthersConcat | vaspgibbs/utils.py:22 | the untouched text of an appended file is the untouched text of its parts, in order |
| Incar.SetIbrionEffect | vaspgibbs/utils.py:19-22 | afterwards IBRION is present and every assignment of it carries the requested value; position for position the result is the file (plus the appended lines when IBRION was missing) with only IBRION values rewritten; the other text is kept, plus two newlines when the line was appended |
| Incar.NormalizeEffect | vaspgibbs/utils.py:24-28 | NSW is gone, every ISTART is 1 and every ICHARG is 0; position for position the result is the file without NSW, with only ISTART and ICHARG values rewritten; IBRION, ISTART and ICHARG are present after iff before; IBRION values and all other text are kept |
| Incar.NormalizeIdempotent | vaspgibbs/utils.py:24-28 | applying the NSW/ISTART/ICHARG rewrites a second time changes nothing |
| Incar.Normalize | vaspgibbs/utils.py:24-28 | the three substitutions leave no NSW, every ISTART is 1 and every ICHARG is 0, and every other token, IBRION values included, stays at its position in the file without NSW |
| Incar.SetIbrion | vaspgibbs/utils.py:19-22 | every IBRION carries the requested value; the result is the file, plus the appended lines when IBRION was missing, with only IBRION values rewritten in place |
| Incar.PrepareIncar | vaspgibbs/utils.py:19-22 | the rewrite fails exactly when the file text is empty and has no IBRION, where `old_incar[-1]` raises `IndexError` |
| Incar.IbrionLineKeys | vaspgibbs/utils.py:22 | the appended lines assign IBRION and no other key |
| Incar.KeysPreserved | vaspgibbs/utils.py:19-28 | ISTART and ICHARG are assigned in the output exactly when they were assigned in the input |
| Incar.PrepareIncarShape | vaspgibbs/utils.py:19-28 | position for position the output is the input without NSW followed by the appended lines, with only IBRION, ISTART and ICHARG values changed |
| Incar.PrepareIncarEffect | vaspgibbs/utils.py:19-28 | fails exactly on an empty file without IBRION; otherwise IBRION has the requested value everywhere, NSW is gone, ISTART = 1, ICHARG = 0, ISTART and ICHARG are present iff they were, position for position the output is the file without NSW (plus the appended lines) with only those three values rewritten, and all other text is kept in order |
| Incar.IbrionLineText | vaspgibbs/utils.py:22 | the appended tokens read `"\n"` + `"IBRION = <n>"` + `"\n"` |
| Incar.AppendedText | vaspgibbs/utils.py:19-22 | when IBRION is missing, the file's text gains exactly `"\nIBRION = <n>\n"` at its end |
| Incar.PrepareIncarIdempotent | vaspgibbs/utils.py:19-28 | running the rewrite again with the same IBRION on its own output gives that output back |
| PoscarWrite.FirstIndex | vaspgibbs/utils.py:92-97 | the position where an element first occurs |
| PoscarWrite.Species | vaspgibbs/utils.py:92-99 | the element line has no duplicates and names an element iff the atom list contains it |
| PoscarWrite.SpeciesFirstAppearanceOrder | vaspgibbs/utils.py:92-99 | the element line lists the elements in the order in which they first occur in the atom list |
| PoscarWrite.CountsSnoc | vaspgibbs/utils.py:94-97 | a further atom raises its own element's count by one and leaves the other counts |
| PoscarWrite.SumCountsKnown | vaspgibbs/utils.py:94-95 | an atom of a known element raises the total of the counts by one |
| PoscarWrite.SumCountsNew | vaspgibbs/utils.py:96-97 | an atom of a new element raises the total of the counts by one |
| PoscarWrite.CountsSumToLength | vaspgibbs/utils.py:92-101 | the numbers on the count line add up to the number of atoms |
| PoscarWrite.SpeciesOfAtoms | vaspgibbs/utils.py:92-101 | no duplicates on the element line; an element is on it iff some atom has it; the counts sum to the number of atoms |
| PoscarWrite.CounterStep | vaspgibbs/utils.py:93-97 | one pass of the counter loop keeps the dictionary equal to the species seen so far with their counts |
| PoscarWrite.Tally | vaspgibbs/utils.py:93-97 | counting one more element keeps the dictionary keyed by the species seen so far, in order, with their counts |
| PoscarWrite.CountSpecies | vaspgibbs/utils.py:92-101 | the dictionary loop yields exactly the species in first-appearance order and their counts |
| PoscarWrite.CollectFlags | vaspgibbs/utils.py:105-107 | fails exactly when some atom has no flags; otherwise line `i` carries the flags of atom `i` |
| PoscarWrite.WritePoscar | vaspgibbs/utils.py:85-107 | element and count lines as above; fails exactly when some atom has no flags; otherwise atom line `i` carries atom `i`'s flags |
| PoscarRead.CumSumStep | vaspgibbs/utils.py:50-54 | the cumulative counts start at the first count and then add one count at a time |
| PoscarRead.CumSum | vaspgibbs/utils.py:50-54 | one running total per count, the last being the total number of atoms |
| PoscarRead.TotalsMonotone | vaspgibbs/utils.py:50-54 | with non-negative counts the cumulative counts never decrease |
| PoscarRead.FirstAbove | vaspgibbs/utils.py:74 | the first index of the mask `i <= nelem - 1` that is true, or none: the least `k` with `i < nelem[k]` |
| PoscarRead.SpeciesAt | vaspgibbs/utils.py:74 | fails with a mask mismatch iff the element and count lists differ in length; otherwise succeeds iff some running total exceeds `i`, and then gives the element of the first such block |
| PoscarRead.FoundInBlock | vaspgibbs/utils.py:74 | an atom index inside the `k`-th block of counts gets species `k` |
| PoscarRead.BlockOfFound | vaspgibbs/utils.py:74 | the species found for an index is the block that contains it |
| PoscarRead.NotFoundPastEnd | vaspgibbs/utils.py:74 | the lookup fails exactly for an index at or past the total count |
| PoscarRead.SpeciesAtBlock | vaspgibbs/utils.py:50-54 | atom `i` gets species `k` iff the first `k` counts total at most `i` and the first `k + 1` more than `i`; the lookup fails iff `i` is at least the total |
| PoscarRead.BlockLength | vaspgibbs/utils.py:64-68 | the atom block is the longest prefix of lines that pass the coordinate test: all of it passes, the next line fails |
| PoscarRead.SplitFrom | vaspgibbs/utils.py:66 | `split()` gives non-empty fields without blanks, blanks being the characters Python splits on |
| PoscarRead.SplitFromContents | vaspgibbs/utils.py:66 | the fields run together are exactly the non-blank characters of the line, in order |
| PoscarRead.SplitFromAtBlank | vaspgibbs/utils.py:66 | a blank ends the field being read: the text before it and the text after it are split separately |
| PoscarRead.FieldsAtBlank | vaspgibbs/utils.py:66 | `split()` of a line with a blank in it is the fields before the blank followed by the fields after it, for any blank and any number of them |
| PoscarRead.FieldsOfRun | vaspgibbs/utils.py:66 | a non-empty run without blanks is exactly one field, so every field is a maximal run |
| PoscarRead.FieldsContents | vaspgibbs/utils.py:66 | `line.split()` keeps every non-blank character and nothing else |
| PoscarRead.SplitJoin | vaspgibbs/utils.py:66 | splitting fields that were joined by single spaces gives those fields back, when each is non-empty and blank-free |
| PoscarRead.WrittenFlagsReadBack | vaspgibbs/utils.py:77 | an atom line written as three coordinates and its flags reads back with exactly those flags |
| PoscarRead.ReadAtoms | vaspgibbs/utils.py:63-81 | succeeds iff every atom of the block has a species; then one atom per block line, with its species, its position and, under selective dynamics, the fields after the coordinates |
| Reposition.Candidate | vaspgibbs/utils.py:177-179 | every candidate shift has components in {0, -1} |
| Reposition.FirstMin | vaspgibbs/utils.py:176-183 | the scan's pick is a minimum distance and strictly below every earlier candidate's, so ties go to the first |
| Reposition.ChosenShift | vaspgibbs/utils.py:176-183 | the chosen shift has components in {0, -1} and is the first candidate, in loop order, whose image is nearest to the old position |
| Reposition.Moved | vaspgibbs/utils.py:184-187 | the moved atom keeps its element, its position is shifted, absent flags become T T T and present flags are kept |
| Reposition.ScanStep | vaspgibbs/utils.py:181-183 | one comparison of the scan extends the first minimum of the candidates seen so far |
| Reposition.Consider | vaspgibbs/utils.py:181-183 | the update of `distmin` and `shift` keeps them the first minimum over the candidates seen so far |
| Reposition.BestShift | vaspgibbs/utils.py:176-183 | the nested loops return the first shift of least distance among the eight |
| Reposition.MoveAtom | vaspgibbs/utils.py:175-187 | atom `i` is replaced by its moved image and no other atom changes |
| Reposition.RepositionAtoms | vaspgibbs/utils.py:174-187 | succeeds iff the old list is at least as long; atom `i` is moved by its best shift, and missing flags become T T T; after a failure the atoms not reached are unchanged; on success every atom has flags |
| Reposition.UnmovedAtomKeepsPosition | vaspgibbs/utils.py:176-183 | for an atom that has not moved and a distance that is zero on equal points, the zero shift is chosen and the position is kept |
| Selection.Wrap | vaspgibbs/utils.py:122 | `x % 1` lies in [0, 1) and differs from `x` by an integer |
| Selection.ListedSingleIndex | vaspgibbs/utils.py:117 | a list naming one index selects that atom and no other, unless an element is spelled like that index |
| Selection.InsertStep | vaspgibbs/utils.py:127 | inserting the next index before the first larger key extends the argsort of a prefix by one |
| Selection.ArgSort | vaspgibbs/utils.py:127 | a permutation of the atom indices that orders the heights ascending |
| Selection.SuffixIsTopSelection | vaspgibbs/utils.py:127-129 | the last `t` entries of an argsort are `t` distinct atoms, none lower than an atom left out |
| Selection.Pigeonhole | vaspgibbs/utils.py:124-129 | `n` distinct indices below `n` include every index |
| Selection.DefaultSelectsAll | vaspgibbs/utils.py:124-129 | when `top` is the number of atoms every atom is picked |
| Selection.TopOneIsHighest | vaspgibbs/utils.py:127-129 | with `top == 1` the single picked atom has the largest height |
| Selection.TopOneFlags | vaspgibbs/utils.py:117-129 | with `top == 1`, the atoms that relax are the listed ones and one atom of greatest height |
| Selection.FlagListed | vaspgibbs/utils.py:116-122 | each atom relaxes iff it is listed, otherwise freezes, and the heights are `(z + tol) % 1` of the atoms before the call |
| Selection.RelaxTop | vaspgibbs/utils.py:126-131 | fails iff more atoms are asked for than exist, and then every atom relaxes; otherwise exactly the listed atoms and the last `top` of the order relax |
| Selection.PreparePoscar | vaspgibbs/utils.py:112-133 | succeeds iff the effective `top` is at most the number of atoms; then an atom relaxes iff it is listed or among the top picks, and otherwise freezes; on failure every atom relaxes; an empty list with `top == 0` succeeds and relaxes every atom; `top == 1` succeeds iff there is an atom, and then relaxes the listed atoms and one highest atom; element and position never change; `tol` defaults to `postol` |

## Left out

- File I/O and processes are not modelled: reading and writing INCAR, POSCAR and POTCAR, the INCAR.save copy, `run_vasp` and `read_outcar`. The operations take and return the contents instead.
- Line 12 calls `os.path.is_file` without importing `os`, so `prepare_incar` raises `NameError` before doing anything. The model describes the rewrite it evidently intends.
- Incar: the model works on tokens, not on raw text, and does not model how the regular expressions find matches. A pattern matching inside a longer word (such as `XNSW = 1`) or inside a comment is an assignment token or raw text as the caller's tokenisation decides.
- The header of `read_poscar` is not modelled: the scale line, the cell vectors, the POTCAR `TITEL` lookup, the counts line's regular expression, and the "Selective dynamics" and Cartesian markers. The element names, counts and the selective flag are inputs of `ReadAtoms`.
- PoscarRead.ReadAtoms: the coordinate test of line 65 is a parameter, not the regular expression. Number parsing, with its `ValueError`, and the Cartesian-to-direct conversion are the `position` parameter.
- PoscarWrite.WritePoscar: the first line, the scale, the cell vectors, the float formatting of positions and the fixed "Selective dynamics"/"Direct" lines are plain text and are not modelled. The counts are numbers, not their decimal text.
- Selection.ArgSort: numpy's default sort is not stable. The model promises only sortedness and a permutation, so the atoms chosen among equal heights are not pinned down.
- Selection.PreparePoscar: the cell is passed through unchanged and the final `write_poscar` call is left out. All flags are set at that point, so the write cannot fail.
- Reposition.RepositionAtoms: `la.norm(cell.dot(...) - cell_old.dot(...))` is the `dist` parameter. Both cells and the floating-point norm are not modelled, and the final `write_poscar` is left out.
- Floating point: positions, the tolerance, `% 1` and distances are exact reals. Rounding and NaN are not captured.
