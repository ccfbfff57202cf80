/** The discrete rules of `read_poscar` (vaspgibbs/utils.py, lines 33-83):
    per-species counts turned into cumulative sums, the species of atom
    `i` found by `elements[i <= nelem - 1][0]`, and the atom block cut off
    at the first line that does not look like three coordinates. */
module PoscarRead {
  import opened Common

  datatype ReadError =
    /** The boolean mask `i <= nelem - 1` and `elements` differ in length:
        numpy raises `IndexError`. */
    | MaskMismatch
    /** No cumulative count exceeds the atom index: `[0]` of an empty
        selection raises `IndexError`. */
    | NoSpecies(index: nat)

  function Total(xs: seq<int>): int
  {
    if xs == [] then 0 else xs[0] + Total(xs[1..])
  }

  /** `np.cumsum(counts)`: entry `k` is the number of atoms of the first
      `k + 1` species. */
  function CumSum(counts: seq<int>): (cum: seq<int>)
    ensures |cum| == |counts|
    ensures |counts| > 0 ==> cum[|counts| - 1] == Total(counts)
  {
    assert counts[..|counts|] == counts;
    seq(|counts|, k requires 0 <= k < |counts| => Total(counts[..k + 1]))
  }

  lemma {:induction false} TotalSnoc(xs: seq<int>, x: int)
    ensures Total(xs + [x]) == Total(xs) + x
  {
    if xs != [] {
      assert (xs + [x])[1..] == xs[1..] + [x];
      TotalSnoc(xs[1..], x);
    } else {
      assert xs + [x] == [x];
    }
  }

  /** The cumulative sums obey the running-sum recurrence. */
  lemma CumSumStep(counts: seq<int>, k: nat)
    requires k < |counts|
    ensures CumSum(counts)[0] == counts[0]
    ensures k > 0 ==> CumSum(counts)[k] == CumSum(counts)[k - 1] + counts[k]
  {
    assert counts[..1] == [counts[0]] && counts[..1][1..] == [];
    assert Total(counts[..1]) == counts[0] + Total([]);
    assert CumSum(counts)[0] == Total(counts[..1]);
    if k > 0 {
      assert counts[..k + 1] == counts[..k] + [counts[k]];
      TotalSnoc(counts[..k], counts[k]);
    }
  }

  /** The least `k` with `i < cum[k]`: the first `True` of the mask
      `i <= nelem - 1` (for integers the two tests agree). */
  function FirstAbove(cum: seq<int>, i: int): (r: Option<nat>)
    ensures r.Some? ==> r.value < |cum| && i < cum[r.value]
    ensures r.Some? ==> forall j :: 0 <= j < r.value ==> cum[j] <= i
    ensures r.None? ==> forall j :: 0 <= j < |cum| ==> cum[j] <= i
  {
    if cum == [] then None
    else if i < cum[0] then Some(0)
    else match FirstAbove(cum[1..], i)
      case None => None
      case Some(k) => Some(k + 1)
  }

  /** Some running total exceeds `i`. */
  ghost predicate Covered(cum: seq<int>, i: int)
  {
    exists k :: 0 <= k < |cum| && i < cum[k]
  }

  /** `e` is the element of the first block whose running total exceeds
      `i`. */
  ghost predicate FirstBlockIs(elements: seq<string>, cum: seq<int>, i: int, e: string)
    requires |elements| == |cum|
  {
    exists k :: 0 <= k < |cum| && e == elements[k] && i < cum[k] &&
                forall j :: 0 <= j < k ==> cum[j] <= i
  }

  /** `elements[i <= nelem - 1][0]` (lines 50, 54 and 74). */
  function SpeciesAt(elements: seq<string>, cum: seq<int>, i: nat): (r: Result<string, ReadError>)
    ensures r == Err(MaskMismatch) <==> |elements| != |cum|
    ensures r.Ok? <==> |elements| == |cum| && Covered(cum, i)
    ensures r.Ok? ==> FirstBlockIs(elements, cum, i, r.value)
    ensures r.Err? && |elements| == |cum| ==> r == Err(NoSpecies(i))
  {
    if |elements| != |cum| then Err(MaskMismatch)
    else match FirstAbove(cum, i)
      case None => Err(NoSpecies(i))
      case Some(k) => Ok(elements[k])
  }

  /** With non-negative counts the prefix totals never decrease. */
  lemma {:induction false} TotalsMonotone(counts: seq<int>, a: nat, b: nat)
    requires forall k :: 0 <= k < |counts| ==> counts[k] >= 0
    requires a <= b <= |counts|
    ensures Total(counts[..a]) <= Total(counts[..b])
    decreases b - a
  {
    if a < b {
      TotalsMonotone(counts, a + 1, b);
      assert counts[..a + 1] == counts[..a] + [counts[a]];
      TotalSnoc(counts[..a], counts[a]);
    }
  }

  /** An index inside the `k`-th block is found in it. */
  lemma FoundInBlock(counts: seq<int>, i: nat, k: nat)
    requires forall j :: 0 <= j < |counts| ==> counts[j] >= 0
    requires k < |counts|
    requires Total(counts[..k]) <= i < Total(counts[..k + 1])
    ensures FirstAbove(CumSum(counts), i) == Some(k)
  {
    var cum := CumSum(counts);
    forall j | 0 <= j < k ensures cum[j] <= i {
      TotalsMonotone(counts, j + 1, k);
    }
    assert i < cum[k];
  }

  /** The block the lookup names does contain the index. */
  lemma BlockOfFound(counts: seq<int>, i: nat, k: nat)
    requires k < |counts|
    requires FirstAbove(CumSum(counts), i) == Some(k)
    ensures Total(counts[..k]) <= i < Total(counts[..k + 1])
  {
    var cum := CumSum(counts);
    if k > 0 {
      assert cum[k - 1] <= i;
    } else {
      assert counts[..0] == [];
    }
  }

  /** The lookup fails exactly past the last block. */
  lemma NotFoundPastEnd(counts: seq<int>, i: nat)
    requires forall j :: 0 <= j < |counts| ==> counts[j] >= 0
    ensures FirstAbove(CumSum(counts), i).None? <==> i >= Total(counts)
  {
    var cum := CumSum(counts);
    assert counts[..|counts|] == counts;
    if |counts| > 0 {
      assert cum[|counts| - 1] == Total(counts);
      forall j | 0 <= j < |counts| ensures cum[j] <= Total(counts) {
        TotalsMonotone(counts, j + 1, |counts|);
      }
    }
  }

  /** With non-negative counts the lookup puts atom `i` in the `k`-th
      block of the POSCAR's atom list: atom `i` gets species `k` exactly
      when the first `k` species hold at most `i` atoms and the first
      `k + 1` hold more; an index past the last block has no species. */
  lemma SpeciesAtBlock(elements: seq<string>, counts: seq<int>, i: nat, k: nat)
    requires |elements| == |counts|
    requires forall j :: 0 <= j < |counts| ==> counts[j] >= 0
    requires k < |counts|
    ensures FirstAbove(CumSum(counts), i) == Some(k)
        <==> Total(counts[..k]) <= i < Total(counts[..k + 1])
    ensures SpeciesAt(elements, CumSum(counts), i).Err? <==> i >= Total(counts)
  {
    if Total(counts[..k]) <= i < Total(counts[..k + 1]) {
      FoundInBlock(counts, i, k);
    }
    if FirstAbove(CumSum(counts), i) == Some(k) {
      BlockOfFound(counts, i, k);
    }
    NotFoundPastEnd(counts, i);
  }

  /** Number of leading lines that pass the coordinate test: the loop of
      lines 64-68 stops at the first line that fails it. */
  function BlockLength(lines: seq<string>, isCoord: string -> bool): (n: nat)
    ensures n <= |lines|
    ensures forall i :: 0 <= i < n ==> isCoord(lines[i])
    ensures n < |lines| ==> !isCoord(lines[n])
  {
    if lines == [] || !isCoord(lines[0]) then 0
    else 1 + BlockLength(lines[1..], isCoord)
  }

  /** The characters Python's `str.split()` separates on: the ASCII
      blanks, the file, group, record and unit separators, and the Unicode
      spaces and line and paragraph separators. */
  predicate IsSpace(c: char)
  {
    var n := c as int;
    || 9 <= n <= 13 || 28 <= n <= 32 || n == 0x85 || n == 0xA0 || n == 0x1680
    || 0x2000 <= n <= 0x200A || n == 0x2028 || n == 0x2029 || n == 0x202F
    || n == 0x205F || n == 0x3000
  }

  predicate Blankless(s: string)
  {
    forall j :: 0 <= j < |s| ==> !IsSpace(s[j])
  }

  /** `str.split()` with no separator: the maximal runs of non-blank
      characters, `cur` being the run read so far. */
  function SplitFrom(s: string, cur: string): (fs: seq<string>)
    requires Blankless(cur)
    ensures forall f :: f in fs ==> f != [] && Blankless(f)
    decreases |s|
  {
    if s == [] then (if cur == [] then [] else [cur])
    else if IsSpace(s[0]) then (if cur == [] then [] else [cur]) + SplitFrom(s[1..], [])
    else SplitFrom(s[1..], cur + [s[0]])
  }

  function Fields(s: string): seq<string>
  {
    SplitFrom(s, [])
  }

  /** The non-blank characters of `s`, in order. */
  function NonBlank(s: string): string
  {
    if s == [] then [] else (if IsSpace(s[0]) then [] else [s[0]]) + NonBlank(s[1..])
  }

  function Concat(fs: seq<string>): string
  {
    if fs == [] then [] else fs[0] + Concat(fs[1..])
  }

  /** Fields separated by single spaces, as `" ".join` writes them. */
  function Join(fs: seq<string>): string
  {
    if fs == [] then [] else if |fs| == 1 then fs[0] else fs[0] + " " + Join(fs[1..])
  }

  lemma {:induction false} ConcatAppend(a: seq<string>, b: seq<string>)
    ensures Concat(a + b) == Concat(a) + Concat(b)
  {
    if a != [] {
      assert (a + b)[0] == a[0] && (a + b)[1..] == a[1..] + b;
      ConcatAppend(a[1..], b);
    } else {
      assert a + b == b;
    }
  }

  /** A blank closes the current field, if any. */
  lemma SplitFromBlank(s: string, cur: string)
    requires s != [] && IsSpace(s[0]) && Blankless(cur)
    requires Concat(SplitFrom(s[1..], [])) == NonBlank(s[1..])
    ensures Concat(SplitFrom(s, cur)) == cur + NonBlank(s)
  {
    var head: seq<string> := if cur == [] then [] else [cur];
    assert Concat(head) == cur by {
      if cur != [] { assert head[1..] == []; }
    }
    assert SplitFrom(s, cur) == head + SplitFrom(s[1..], []);
    assert NonBlank(s) == NonBlank(s[1..]);
    ConcatAppend(head, SplitFrom(s[1..], []));
  }

  /** Splitting loses only the blanks: the fields, run together, are the
      run read so far followed by the non-blank characters of the rest. */
  lemma {:induction false} SplitFromContents(s: string, cur: string)
    requires Blankless(cur)
    ensures Concat(SplitFrom(s, cur)) == cur + NonBlank(s)
    decreases |s|
  {
    if s == [] {
      if cur != [] { assert [cur][1..] == []; }
    } else if IsSpace(s[0]) {
      SplitFromContents(s[1..], []);
      SplitFromBlank(s, cur);
    } else {
      assert NonBlank(s) == [s[0]] + NonBlank(s[1..]);
      SplitFromContents(s[1..], cur + [s[0]]);
    }
  }

  /** `line.split()` keeps every non-blank character of the line, in order. */
  lemma FieldsContents(line: string)
    ensures Concat(Fields(line)) == NonBlank(line)
  {
    SplitFromContents(line, []);
    assert [] + NonBlank(line) == NonBlank(line);
  }

  /** A run of non-blank characters extends the current field. */
  lemma {:induction false} SplitRun(f: string, rest: string, cur: string)
    requires Blankless(cur) && Blankless(f)
    ensures SplitFrom(f + rest, cur) == SplitFrom(rest, cur + f)
    decreases |f|
  {
    if f == [] {
      assert f + rest == rest && cur + f == cur;
    } else {
      assert (f + rest)[0] == f[0] && (f + rest)[1..] == f[1..] + rest;
      SplitRun(f[1..], rest, cur + [f[0]]);
      assert cur + [f[0]] + f[1..] == cur + f;
    }
  }

  /** A blank ends the field being read and starts afresh: what comes
      before it and what comes after it are split separately. */
  lemma {:induction false} SplitFromAtBlank(a: string, c: char, b: string, cur: string)
    requires IsSpace(c) && Blankless(cur)
    ensures SplitFrom(a + [c] + b, cur) == SplitFrom(a, cur) + SplitFrom(b, [])
    decreases |a|
  {
    var s := a + [c] + b;
    if a == [] {
      assert s == [c] + b && s[0] == c && s[1..] == b;
    } else {
      assert s[0] == a[0] && s[1..] == a[1..] + [c] + b;
      if IsSpace(a[0]) {
        SplitFromAtBlank(a[1..], c, b, []);
        var head: seq<string> := if cur == [] then [] else [cur];
        assert SplitFrom(s, cur) == head + SplitFrom(a[1..] + [c] + b, []);
        assert SplitFrom(a, cur) == head + SplitFrom(a[1..], []);
      } else {
        SplitFromAtBlank(a[1..], c, b, cur + [a[0]]);
      }
    }
  }

  /** `str.split()` splits at every blank: the fields of a line with a
      blank in it are the fields before the blank followed by the fields
      after it. */
  lemma FieldsAtBlank(a: string, c: char, b: string)
    requires IsSpace(c)
    ensures Fields(a + [c] + b) == Fields(a) + Fields(b)
  {
    SplitFromAtBlank(a, c, b, []);
  }

  /** A non-empty run without blanks is a single field. With
      `FieldsAtBlank` and `Fields([]) == []` this determines `str.split()`
      on every line. */
  lemma FieldsOfRun(s: string)
    requires s != [] && Blankless(s)
    ensures Fields(s) == [s]
  {
    SplitRun(s, [], []);
    assert s + [] == s && [] + s == s;
  }

  /** Splitting what `" ".join` wrote gives back the fields, when each is
      non-empty and without blanks. */
  lemma {:induction false} SplitJoin(fs: seq<string>)
    requires forall f :: f in fs ==> f != [] && Blankless(f)
    ensures Fields(Join(fs)) == fs
  {
    if |fs| == 1 {
      SplitRun(fs[0], [], []);
      assert fs[0] + [] == fs[0] && [] + fs[0] == fs[0];
    } else if |fs| > 1 {
      var rest := " " + Join(fs[1..]);
      assert Join(fs) == fs[0] + rest;
      SplitRun(fs[0], rest, []);
      assert [] + fs[0] == fs[0];
      assert rest[0] == ' ' && rest[1..] == Join(fs[1..]);
      SplitJoin(fs[1..]);
      assert SplitFrom(rest, fs[0]) == [fs[0]] + SplitFrom(Join(fs[1..]), []);
    }
  }

  /** `r` is what follows the first three fields of `fs`: nothing when
      there are at most three. */
  ghost predicate AfterThird(fs: seq<string>, r: seq<string>)
  {
    if |fs| <= 3 then r == [] else fs == fs[..3] + r
  }

  /** The selective-dynamics flags of an atom line: `content[3:]`, the
      fields after the first three. */
  function FlagFields(line: string): seq<string>
  {
    var fs := Fields(line);
    if |fs| <= 3 then [] else fs[3..]
  }

  /** The flags are the fields after the three coordinates, and nothing
      when the line has no more than three fields. */
  lemma FlagFieldsAfterThird(line: string)
    ensures AfterThird(Fields(line), FlagFields(line))
  {
    var fs := Fields(line);
    if |fs| > 3 {
      assert fs == fs[..3] + fs[3..];
    }
  }

  /** An atom line written as three coordinates and the flags, separated
      by single spaces, reads back with exactly those flags. */
  lemma WrittenFlagsReadBack(coords: seq<string>, flags: seq<string>)
    requires |coords| == 3
    requires forall f :: f in coords + flags ==> f != [] && Blankless(f)
    ensures FlagFields(Join(coords + flags)) == flags
  {
    SplitJoin(coords + flags);
    assert (coords + flags)[3..] == flags;
  }

  /** The atom loop of `read_poscar` (lines 63-81). `lines` are the lines
      after the coordinate-mode line; `isCoord` stands for the regular
      expression of line 65 and `position` for reading the first three
      numbers of a line (converted through the inverse cell in Cartesian
      mode). The block is the longest prefix of coordinate lines; each of
      its atoms gets the species its index falls into and, under selective
      dynamics, the fields after its coordinates as flags. The loop fails
      exactly when some atom of the block has no species. */
  method ReadAtoms(lines: seq<string>, elements: seq<string>, counts: seq<int>, selective: bool,
                   isCoord: string -> bool, position: string -> Pos)
    returns (r: Result<seq<Atom>, ReadError>)
    ensures r.Ok? <==> forall i :: 0 <= i < BlockLength(lines, isCoord) ==>
                         SpeciesAt(elements, CumSum(counts), i).Ok?
    ensures r.Ok? ==> |r.value| == BlockLength(lines, isCoord)
    ensures r.Ok? ==> forall i :: 0 <= i < |r.value| ==>
      r.value[i] == Atom(SpeciesAt(elements, CumSum(counts), i).value, position(lines[i]),
                         if selective then Some(FlagFields(lines[i])) else None)
  {
    var cum := CumSum(counts);
    var atoms: seq<Atom> := [];
    var i := 0;
    while i < |lines|
      invariant i <= |lines| && |atoms| == i
      invariant forall j :: 0 <= j < i ==> isCoord(lines[j]) && SpeciesAt(elements, cum, j).Ok?
      invariant forall j :: 0 <= j < i ==>
        atoms[j] == Atom(SpeciesAt(elements, cum, j).value, position(lines[j]),
                         if selective then Some(FlagFields(lines[j])) else None)
    {
      if !isCoord(lines[i]) {
        break;
      }
      var pos := position(lines[i]);
      var elem := SpeciesAt(elements, cum, i);
      if elem.Err? {
        return Err(elem.error);
      }
      var sel := if selective then Some(FlagFields(lines[i])) else None;
      atoms := atoms + [Atom(elem.value, pos, sel)];
      i := i + 1;
    }
    return Ok(atoms);
  }
}
