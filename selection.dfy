/** `prepare_poscar` (vaspgibbs/utils.py, lines 112-133): choose which atoms
    relax. Atoms named in the inclusion list, by element symbol or by the
    decimal string of their index, relax along every axis; all others are
    frozen; then the `top` atoms with the largest wrapped height relax as
    well. The flags are written into the caller's list in place. */
module Selection {
  import opened Common

  /** `postol`, the default tolerance added to the height (line 8). */
  const PosTol: real := 0.00001

  /** Python's `x % 1` on a float: the fractional part, in [0, 1). */
  function Wrap(x: real): (w: real)
    ensures 0.0 <= w < 1.0
    ensures (x - w).Floor as real == x - w
  {
    x - x.Floor as real
  }

  /** `(pos[2] + tol) % 1` (line 122): the height that ranks the atoms. */
  function HeightKey(p: Pos, tol: real): real
  {
    Wrap(p.z + tol)
  }

  function Keys(atoms: seq<Atom>, tol: real): (z: seq<real>)
    ensures |z| == |atoms|
    ensures forall i :: 0 <= i < |atoms| ==> z[i] == HeightKey(atoms[i].pos, tol)
  {
    seq(|atoms|, i requires 0 <= i < |atoms| => HeightKey(atoms[i].pos, tol))
  }

  /** Line 117: the atom is named by its element or by `str(i)`. */
  predicate Listed(elem: string, i: nat, listAtoms: seq<string>)
  {
    elem in listAtoms || NatToString(i) in listAtoms
  }

  /** Naming one index `j` in the list selects atom `j` and no other atom,
      unless an element happens to be spelled like `str(j)`. */
  lemma ListedSingleIndex(elem: string, i: nat, j: nat)
    ensures Listed(elem, i, [NatToString(j)]) <==> i == j || elem == NatToString(j)
  {
    if NatToString(i) == NatToString(j) {
      NatToStringInjective(i, j);
    }
  }

  /** Lines 124-125: an empty list together with `top == 0` means "all
      atoms". */
  function EffectiveTop(listAtoms: seq<string>, top: int, n: nat): int
  {
    if listAtoms == [] && top == 0 then n else top
  }

  predicate Distinct(s: seq<nat>)
  {
    forall p, q :: 0 <= p < q < |s| ==> s[p] != s[q]
  }

  /** `picked` names `t` distinct atoms whose keys are at least the key
      of every atom left out. */
  predicate IsTopSelection(keys: seq<real>, picked: seq<nat>, t: nat)
  {
    && |picked| == t
    && Distinct(picked)
    && (forall p :: 0 <= p < t ==> picked[p] < |keys|)
    && (forall p, j :: 0 <= p < t && 0 <= j < |keys| && j !in picked ==> keys[j] <= keys[picked[p]])
  }

  // ---------------------------------------------------------------------
  // np.argsort

  /** The arguments of `z` in an order that sorts their keys ascending,
      every index exactly once. */
  predicate IsArgSort(z: seq<real>, idx: seq<nat>)
  {
    && |idx| == |z|
    && Distinct(idx)
    && (forall p :: 0 <= p < |idx| ==> idx[p] < |z|)
    && (forall j :: 0 <= j < |z| ==> j in idx)
    && (forall p, q :: 0 <= p < q < |idx| ==> z[idx[p]] <= z[idx[q]])
  }

  /** The argsort of the first `i` keys, as the insertion loop keeps it. */
  predicate IsPrefixArgSort(z: seq<real>, idx: seq<nat>, i: nat)
    requires i <= |z|
  {
    && |idx| == i
    && Distinct(idx)
    && (forall p :: 0 <= p < i ==> idx[p] < i)
    && (forall j :: 0 <= j < i ==> j in idx)
    && (forall p, q :: 0 <= p < q < i ==> z[idx[p]] <= z[idx[q]])
  }

  /** `r` is `idx` with `i` inserted at position `pos`. */
  predicate InsertedAt(idx: seq<nat>, pos: nat, i: nat, r: seq<nat>)
  {
    && pos <= |idx|
    && |r| == |idx| + 1
    && (forall p :: 0 <= p < pos ==> r[p] == idx[p])
    && r[pos] == i
    && (forall p :: pos < p < |r| ==> r[p] == idx[p - 1])
  }

  lemma InsertedAtSplice(idx: seq<nat>, pos: nat, i: nat)
    requires pos <= |idx|
    ensures InsertedAt(idx, pos, i, idx[..pos] + [i] + idx[pos..])
  {
  }

  lemma InsertDistinct(idx: seq<nat>, pos: nat, i: nat, r: seq<nat>)
    requires InsertedAt(idx, pos, i, r) && Distinct(idx)
    requires forall p :: 0 <= p < |idx| ==> idx[p] < i
    ensures Distinct(r)
    ensures forall p :: 0 <= p < |r| ==> r[p] <= i
  {
  }

  lemma InsertCovers(idx: seq<nat>, pos: nat, i: nat, r: seq<nat>)
    requires InsertedAt(idx, pos, i, r)
    requires forall j :: 0 <= j < i ==> j in idx
    ensures forall j :: 0 <= j <= i ==> j in r
  {
    forall j | 0 <= j <= i ensures j in r {
      if j < i {
        assert j in idx;
        var b :| 0 <= b < |idx| && idx[b] == j;
        if b < pos {
          assert r[b] == j;
        } else {
          assert r[b + 1] == j;
        }
      } else {
        assert r[pos] == i;
      }
    }
  }

  lemma InsertSorted(z: seq<real>, idx: seq<nat>, pos: nat, i: nat, r: seq<nat>)
    requires InsertedAt(idx, pos, i, r) && i < |z|
    requires forall p :: 0 <= p < |idx| ==> idx[p] < |z|
    requires forall p, q :: 0 <= p < q < |idx| ==> z[idx[p]] <= z[idx[q]]
    requires forall p :: 0 <= p < pos ==> z[idx[p]] <= z[i]
    requires pos < |idx| ==> z[i] < z[idx[pos]]
    ensures forall p, q :: 0 <= p < q < |r| ==> z[r[p]] <= z[r[q]]
  {
  }

  /** Inserting index `i` at position `pos` of the argsort of the first
      `i` keys gives that of the first `i + 1`, when `pos` separates the
      keys not above `z[i]` from those above it. */
  lemma InsertStep(z: seq<real>, idx: seq<nat>, pos: nat, i: nat)
    requires i < |z| && pos <= i
    requires IsPrefixArgSort(z, idx, i)
    requires forall p :: 0 <= p < pos ==> z[idx[p]] <= z[i]
    requires pos < i ==> z[i] < z[idx[pos]]
    ensures IsPrefixArgSort(z, idx[..pos] + [i] + idx[pos..], i + 1)
  {
    var r := idx[..pos] + [i] + idx[pos..];
    InsertedAtSplice(idx, pos, i);
    InsertDistinct(idx, pos, i, r);
    InsertCovers(idx, pos, i, r);
    InsertSorted(z, idx, pos, i, r);
  }

  /** `np.argsort(z)` (line 127). numpy's default sort is not stable, so
      only the sortedness and the permutation are promised; this insertion
      sort happens to keep equal keys in index order. */
  method ArgSort(z: seq<real>) returns (idx: seq<nat>)
    ensures IsArgSort(z, idx)
  {
    idx := [];
    for i := 0 to |z|
      invariant IsPrefixArgSort(z, idx, i)
    {
      var pos := 0;
      while pos < i && z[idx[pos]] <= z[i]
        invariant pos <= i
        invariant forall p :: 0 <= p < pos ==> z[idx[p]] <= z[i]
      {
        pos := pos + 1;
      }
      InsertStep(z, idx, pos, i);
      idx := idx[..pos] + [i] + idx[pos..];
    }
  }

  // ---------------------------------------------------------------------
  // Counting arguments

  /** A repetition-free sequence of numbers below `m` has at most `m`
      entries. */
  lemma {:induction false} LengthBound(s: seq<nat>, m: nat)
    requires Distinct(s)
    requires forall p :: 0 <= p < |s| ==> s[p] < m
    ensures |s| <= m
  {
    if s != [] {
      assert s[0] < m;
      if m - 1 in s {
        var k :| 0 <= k < |s| && s[k] == m - 1;
        var t := s[..k] + s[k + 1..];
        forall p | 0 <= p < |t| ensures t[p] == if p < k then s[p] else s[p + 1] { }
        LengthBound(t, m - 1);
      } else {
        LengthBound(s, m - 1);
      }
    }
  }

  /** A repetition-free sequence of `n` numbers below `n` holds every one
      of them. */
  lemma Pigeonhole(s: seq<nat>, n: nat, j: nat)
    requires Distinct(s) && |s| == n && j < n
    requires forall p :: 0 <= p < |s| ==> s[p] < n
    ensures j in s
  {
    if j !in s {
      var t := seq(|s|, p requires 0 <= p < |s| => if s[p] == n - 1 then j else s[p]);
      forall p, q | 0 <= p < q < |t| ensures t[p] != t[q] {
        assert s[p] != s[q];
        assert s[p] != j && s[q] != j;
      }
      LengthBound(t, n - 1);
      assert false;
    }
  }

  /** The atoms at the top `t` places of an argsort are a top selection. */
  lemma SuffixIsTopSelection(z: seq<real>, idx: seq<nat>, t: nat)
    requires IsArgSort(z, idx) && t <= |z|
    ensures IsTopSelection(z, idx[|z| - t..], t)
  {
    var n := |z|;
    var picked := idx[n - t..];
    forall b | n - t <= b < n ensures idx[b] in picked {
      assert picked[b - (n - t)] == idx[b];
    }
    forall p, j | 0 <= p < t && 0 <= j < n && j !in picked ensures z[j] <= z[picked[p]] {
      assert j in idx;
      var b :| 0 <= b < n && idx[b] == j;
      assert picked[p] == idx[p + n - t];
    }
  }

  /** With the inclusion list empty and `top == 0` the selection covers
      every atom: everything relaxes. */
  lemma DefaultSelectsAll(keys: seq<real>, picked: seq<nat>)
    requires IsTopSelection(keys, picked, |keys|)
    ensures forall j :: 0 <= j < |keys| ==> j in picked
  {
    forall j | 0 <= j < |keys| ensures j in picked {
      Pigeonhole(picked, |keys|, j);
    }
  }

  /** With `top == 1` exactly one atom is picked, and it has the largest
      key. */
  lemma TopOneIsHighest(keys: seq<real>, picked: seq<nat>)
    requires IsTopSelection(keys, picked, 1)
    ensures |picked| == 1 && picked[0] < |keys|
    ensures forall j :: 0 <= j < |keys| ==> keys[j] <= keys[picked[0]]
  {
  }

  // ---------------------------------------------------------------------
  // prepare_poscar

  /** The atoms of `after` that relax are the listed ones and one atom
      `k` that is highest in `before`. */
  ghost predicate ListedAndHighestRelax(before: seq<Atom>, after: seq<Atom>, listAtoms: seq<string>, tol: real)
  {
    && |after| == |before|
    && exists k :: 0 <= k < |before| &&
                   (forall j :: 0 <= j < |before| ==> HeightKey(before[j].pos, tol) <= HeightKey(before[k].pos, tol)) &&
                   (forall j :: 0 <= j < |after| ==>
                                  after[j].sel == Some(if Listed(after[j].elem, j, listAtoms) || j == k then Relax else Freeze))
  }

  /** With `top == 1`, the atoms that relax are the listed ones and the
      single highest atom. */
  lemma TopOneFlags(before: seq<Atom>, after: seq<Atom>, picked: seq<nat>, listAtoms: seq<string>, tol: real)
    requires |after| == |before|
    requires IsTopSelection(Keys(before, tol), picked, 1)
    requires forall i :: 0 <= i < |after| ==>
      after[i].sel == Some(if Listed(after[i].elem, i, listAtoms) || i in picked then Relax else Freeze)
    ensures ListedAndHighestRelax(before, after, listAtoms, tol)
  {
    var z := Keys(before, tol);
    TopOneIsHighest(z, picked);
    var k := picked[0];
    assert forall j :: j in picked <==> j == k;
    assert forall j :: 0 <= j < |before| ==> z[j] <= z[k];
  }

  /** The flags line 117-121 give an atom before the `top` pass. */
  function BaseFlags(elem: string, i: nat, listAtoms: seq<string>): seq<string>
  {
    if Listed(elem, i, listAtoms) then Relax else Freeze
  }

  /** Lines 116-122: the flags from the inclusion list, and the height
      of every atom. */
  method FlagListed(atoms: array<Atom>, listAtoms: seq<string>, tol: real) returns (z: seq<real>)
    modifies atoms
    ensures z == Keys(old(atoms[..]), tol)
    ensures forall j :: 0 <= j < atoms.Length ==>
      atoms[j] == Atom(old(atoms[j].elem), old(atoms[j].pos), Some(BaseFlags(old(atoms[j].elem), j, listAtoms)))
  {
    ghost var before := atoms[..];
    z := [];
    for i := 0 to atoms.Length
      invariant z == Keys(before[..i], tol)
      invariant forall j :: 0 <= j < i ==> atoms[j] == Atom(before[j].elem, before[j].pos, Some(BaseFlags(before[j].elem, j, listAtoms)))
      invariant forall j :: i <= j < atoms.Length ==> atoms[j] == before[j]
    {
      var a := atoms[i];
      var sel := if a.elem in listAtoms || NatToString(i) in listAtoms then Relax else Freeze;
      atoms[i] := Atom(a.elem, a.pos, Some(sel));
      z := z + [HeightKey(a.pos, tol)];
    }
    assert before[..atoms.Length] == before;
  }

  /** Lines 126-131: the atoms at the last `t` places of `idx` relax;
      `ok` is false when `t` runs past the start of `idx`, after every
      atom has been set to relax. */
  method RelaxTop(atoms: array<Atom>, listAtoms: seq<string>, idx: seq<nat>, t: int) returns (ok: bool)
    requires |idx| == atoms.Length
    requires forall p :: 0 <= p < |idx| ==> idx[p] < atoms.Length
    requires forall j :: 0 <= j < atoms.Length ==> j in idx
    requires forall j :: 0 <= j < atoms.Length ==> atoms[j].sel == Some(BaseFlags(atoms[j].elem, j, listAtoms))
    modifies atoms
    ensures ok <==> t <= atoms.Length
    ensures forall j :: 0 <= j < atoms.Length ==> atoms[j].elem == old(atoms[j].elem) && atoms[j].pos == old(atoms[j].pos)
    ensures ok ==> forall j :: 0 <= j < atoms.Length ==>
      atoms[j].sel == Some(if Listed(atoms[j].elem, j, listAtoms) || j in idx[atoms.Length - (if t < 0 then 0 else t)..] then Relax else Freeze)
    ensures !ok ==> forall j :: 0 <= j < atoms.Length ==> atoms[j].sel == Some(Relax)
  {
    var n := atoms.Length;
    var i := 0;
    assert idx[n - i..] == [];
    while i < t
      invariant 0 <= i <= n && i <= (if t < 0 then 0 else t)
      invariant forall j :: 0 <= j < n ==> atoms[j].elem == old(atoms[j].elem) && atoms[j].pos == old(atoms[j].pos)
      invariant forall j :: 0 <= j < n ==>
        atoms[j].sel == Some(if Listed(atoms[j].elem, j, listAtoms) || j in idx[n - i..] then Relax else Freeze)
    {
      if i == n {
        assert idx[n - i..] == idx;
        return false;
      }
      var k := idx[n - 1 - i];
      atoms[k] := atoms[k].(sel := Some(Relax));
      assert idx[n - (i + 1)..] == [k] + idx[n - i..];
      i := i + 1;
    }
    return true;
  }

  /** Lines 114-133 without writing the POSCAR. `ok` is false when the
      effective `top` exceeds the number of atoms: `idx[-(i+1)]` then
      raises `IndexError` once every atom has been set to relax, and
      nothing is written. On success `picked` are the atoms chosen by
      height. */
  method PreparePoscar(atoms: array<Atom>, listAtoms: seq<string>, top: int, tol: real := PosTol)
    returns (ok: bool, ghost picked: seq<nat>)
    modifies atoms
    ensures ok <==> EffectiveTop(listAtoms, top, atoms.Length) <= atoms.Length
    ensures forall i :: 0 <= i < atoms.Length ==>
      atoms[i].elem == old(atoms[i].elem) && atoms[i].pos == old(atoms[i].pos)
    ensures ok ==> IsTopSelection(Keys(old(atoms[..]), tol), picked,
                                  if EffectiveTop(listAtoms, top, atoms.Length) < 0 then 0
                                  else EffectiveTop(listAtoms, top, atoms.Length))
    ensures ok ==> forall i :: 0 <= i < atoms.Length ==>
      atoms[i].sel == Some(if Listed(atoms[i].elem, i, listAtoms) || i in picked then Relax else Freeze)
    ensures !ok ==> forall i :: 0 <= i < atoms.Length ==> atoms[i].sel == Some(Relax)
    ensures listAtoms == [] && top == 0 ==>
      ok && forall i :: 0 <= i < atoms.Length ==> atoms[i].sel == Some(Relax)
    ensures top == 1 ==> (ok <==> atoms.Length >= 1)
    ensures top == 1 && ok ==> ListedAndHighestRelax(old(atoms[..]), atoms[..], listAtoms, tol)
  {
    var n := atoms.Length;
    ghost var before := atoms[..];
    var z := FlagListed(atoms, listAtoms, tol);
    var t := EffectiveTop(listAtoms, top, n);
    var idx := ArgSort(z);
    ok := RelaxTop(atoms, listAtoms, idx, t);
    if !ok {
      picked := [];
      return;
    }
    var tt := if t < 0 then 0 else t;
    picked := idx[n - tt..];
    SuffixIsTopSelection(z, idx, tt);
    if listAtoms == [] && top == 0 {
      DefaultSelectsAll(z, picked);
    }
    if top == 1 {
      TopOneFlags(before, atoms[..], picked, listAtoms, tol);
    }
  }
}
