/** `reposition` (vaspgibbs/utils.py, lines 170-189): every atom of the new
    POSCAR is moved to the periodic image, among the shifts with components
    in {0, -1}, that lies closest to the atom at the same index in the old
    POSCAR. The Cartesian distance `la.norm(cell.dot(p + s) -
    cell_old.dot(q))` is a parameter `dist(p + s, q)`. */
module Reposition {
  import opened Common

  datatype Shift = Shift(j: int, k: int, l: int)

  /** The shifts in the order of `for j in [0,-1]: for k in [0,-1]: for l
      in [0,-1]`. */
  const Candidates: seq<Shift> := [
    Shift(0, 0, 0), Shift(0, 0, -1), Shift(0, -1, 0), Shift(0, -1, -1),
    Shift(-1, 0, 0), Shift(-1, 0, -1), Shift(-1, -1, 0), Shift(-1, -1, -1)]

  /** The `n`-th shift of the enumeration. */
  function Candidate(n: nat): (s: Shift)
    requires n < 8
    ensures s.j in {0, -1} && s.k in {0, -1} && s.l in {0, -1}
  {
    Candidates[n]
  }

  function Shifted(p: Pos, s: Shift): Pos
  {
    Pos(p.x + s.j as real, p.y + s.k as real, p.z + s.l as real)
  }

  /** The distance of every candidate image of `p` to `q`, in enumeration
      order. */
  function Distances(p: Pos, q: Pos, dist: (Pos, Pos) -> real): (ds: seq<real>)
    ensures |ds| == 8
  {
    seq(8, n requires 0 <= n < 8 => dist(Shifted(p, Candidate(n)), q))
  }

  /** The index a running `if distmin is None or d < distmin` scan ends
      on: a minimum, and the first one, since a later equal distance does
      not replace it. */
  function FirstMin(ds: seq<real>): (m: nat)
    requires |ds| > 0
    ensures m < |ds|
    ensures forall n :: 0 <= n < |ds| ==> ds[m] <= ds[n]
    ensures forall n :: 0 <= n < m ==> ds[m] < ds[n]
  {
    if |ds| == 1 then 0
    else
      var m := FirstMin(ds[..|ds| - 1]);
      if ds[|ds| - 1] < ds[m] then |ds| - 1 else m
  }

  /** `s` is the first candidate, in enumeration order, whose image of
      `p` is nearest to `q`. */
  ghost predicate FirstNearest(p: Pos, q: Pos, dist: (Pos, Pos) -> real, s: Shift)
  {
    exists m :: 0 <= m < 8 && s == Candidate(m) &&
                (forall n :: 0 <= n < 8 ==> dist(Shifted(p, s), q) <= dist(Shifted(p, Candidate(n)), q)) &&
                (forall n :: 0 <= n < m ==> dist(Shifted(p, s), q) < dist(Shifted(p, Candidate(n)), q))
  }

  /** The shift `reposition` applies to an atom at `p` whose old position
      is `q`. */
  function ChosenShift(p: Pos, q: Pos, dist: (Pos, Pos) -> real): (s: Shift)
    ensures s.j in {0, -1} && s.k in {0, -1} && s.l in {0, -1}
    ensures FirstNearest(p, q, dist, s)
  {
    var ds := Distances(p, q, dist);
    var m := FirstMin(ds);
    assert ds[m] == dist(Shifted(p, Candidate(m)), q);
    assert forall n :: 0 <= n < 8 ==> ds[n] == dist(Shifted(p, Candidate(n)), q);
    Candidate(m)
  }

  /** Lines 184-187: the atom moved by `s`; absent flags become
      `["T","T","T"]`, present flags are kept. */
  function Moved(a: Atom, s: Shift): (r: Atom)
    ensures r.elem == a.elem && r.pos == Shifted(a.pos, s)
    ensures r.sel.Some?
    ensures a.sel.Some? ==> r.sel == a.sel
    ensures a.sel.None? ==> r.sel == Some(Relax)
  {
    Atom(a.elem, Shifted(a.pos, s), if a.sel.None? then Some(Relax) else a.sel)
  }

  /** State of the scan after the first `m` candidates. */
  ghost predicate Scanned(ds: seq<real>, m: nat, distmin: Option<real>, shift: Shift)
    requires m <= |ds| == 8
  {
    if m == 0 then distmin.None?
    else distmin == Some(ds[FirstMin(ds[..m])]) && shift == Candidate(FirstMin(ds[..m]))
  }

  /** One step of the scan: candidate `m` replaces the best so far only
      when it is strictly closer. */
  lemma ScanStep(ds: seq<real>, m: nat, distmin: Option<real>, shift: Shift)
    requires m < |ds| == 8
    requires Scanned(ds, m, distmin, shift)
    ensures distmin.None? || ds[m] < distmin.value ==> Scanned(ds, m + 1, Some(ds[m]), Candidate(m))
    ensures !(distmin.None? || ds[m] < distmin.value) ==> Scanned(ds, m + 1, distmin, shift)
  {
    var pre := ds[..m + 1];
    assert pre[..m] == ds[..m];
    assert pre[m] == ds[m];
    if m > 0 {
      var k := FirstMin(ds[..m]);
      assert pre[k] == ds[k];
      assert FirstMin(pre) == if ds[m] < ds[k] then m else k;
    }
  }

  lemma CandidateAt(a: int, b: int, c: int)
    requires 0 <= a < 2 && 0 <= b < 2 && 0 <= c < 2
    ensures Candidate(4 * a + 2 * b + c) == Shift(-a, -b, -c)
  {
  }

  /** The body of the innermost loop (lines 180-183): candidate `n` at
      distance `d` replaces the best so far only when it is strictly
      closer. */
  method Consider(ghost ds: seq<real>, ghost n: nat, s: Shift, d: real, distmin: Option<real>, shift: Shift)
    returns (distmin': Option<real>, shift': Shift)
    requires n < |ds| == 8 && s == Candidate(n) && d == ds[n]
    requires Scanned(ds, n, distmin, shift)
    ensures Scanned(ds, n + 1, distmin', shift')
  {
    ScanStep(ds, n, distmin, shift);
    if distmin.None? || d < distmin.value {
      distmin', shift' := Some(d), s;
    } else {
      distmin', shift' := distmin, shift;
    }
  }

  /** Lines 176-183: the nested loops over the eight images. */
  method BestShift(p: Pos, q: Pos, dist: (Pos, Pos) -> real) returns (shift: Shift)
    ensures shift == ChosenShift(p, q, dist)
    ensures shift.j in {0, -1} && shift.k in {0, -1} && shift.l in {0, -1}
  {
    ghost var ds := Distances(p, q, dist);
    ghost var n: nat := 0;
    var distmin: Option<real> := None;
    shift := Shift(0, 0, 0);
    for a := 0 to 2
      invariant n == 4 * a && Scanned(ds, n, distmin, shift)
    {
      for b := 0 to 2
        invariant n == 4 * a + 2 * b && Scanned(ds, n, distmin, shift)
      {
        for c := 0 to 2
          invariant n == 4 * a + 2 * b + c && Scanned(ds, n, distmin, shift)
        {
          var s := Shift(-a, -b, -c);
          CandidateAt(a, b, c);
          var d := dist(Shifted(p, s), q);
          distmin, shift := Consider(ds, n, s, d, distmin, shift);
          n := n + 1;
        }
      }
    }
    assert ds[..8] == ds;
  }

  /** Lines 175-187: atom `i` moved to its image nearest to `q`. */
  method MoveAtom(atoms: array<Atom>, i: nat, q: Pos, dist: (Pos, Pos) -> real)
    requires i < atoms.Length
    modifies atoms
    ensures atoms[i] == Moved(old(atoms[i]), ChosenShift(old(atoms[i]).pos, q, dist))
    ensures forall j :: 0 <= j < atoms.Length && j != i ==> atoms[j] == old(atoms[j])
  {
    var a := atoms[i];
    var shift := BestShift(a.pos, q, dist);
    atoms[i] := Moved(a, shift);
  }

  /** Lines 174-189 without the file I/O: `atoms` is the list read from
      POSCAR and `oldAtoms` the one read from POSCAR.save. Atoms are
      matched by index; when the old list is shorter, `atoms_old[i]` raises
      `IndexError` after the atoms before `i` were already replaced, and
      nothing is written. */
  method RepositionAtoms(atoms: array<Atom>, oldAtoms: seq<Atom>, dist: (Pos, Pos) -> real) returns (ok: bool)
    modifies atoms
    ensures ok <==> atoms.Length <= |oldAtoms|
    ensures forall i :: 0 <= i < atoms.Length && i < |oldAtoms| ==>
      atoms[i] == Moved(old(atoms[i]), ChosenShift(old(atoms[i]).pos, oldAtoms[i].pos, dist))
    ensures forall i :: |oldAtoms| <= i < atoms.Length ==> atoms[i] == old(atoms[i])
    ensures ok ==> forall i :: 0 <= i < atoms.Length ==> atoms[i].sel.Some?
  {
    ghost var before := atoms[..];
    var i := 0;
    while i < atoms.Length
      invariant 0 <= i <= atoms.Length && i <= |oldAtoms|
      invariant forall j :: 0 <= j < i ==>
        atoms[j] == Moved(before[j], ChosenShift(before[j].pos, oldAtoms[j].pos, dist))
      invariant forall j :: i <= j < atoms.Length ==> atoms[j] == before[j]
    {
      if i >= |oldAtoms| {
        return false;
      }
      MoveAtom(atoms, i, oldAtoms[i].pos, dist);
      i := i + 1;
    }
    return true;
  }

  /** When an atom has not moved and the distance vanishes on equal
      points, the zero shift is chosen, so the position is unchanged. */
  lemma UnmovedAtomKeepsPosition(p: Pos, dist: (Pos, Pos) -> real)
    requires dist(p, p) == 0.0
    requires forall x, y :: dist(x, y) >= 0.0
    ensures ChosenShift(p, p, dist) == Shift(0, 0, 0)
    ensures Shifted(p, ChosenShift(p, p, dist)) == p
  {
    var ds := Distances(p, p, dist);
    assert Shifted(p, Candidate(0)) == p;
    assert ds[0] == 0.0;
    var m := FirstMin(ds);
    assert ds[m] == dist(Shifted(p, Candidate(m)), p);
    assert m == 0;
  }
}
