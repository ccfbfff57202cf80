/** The discrete part of `write_poscar` (vaspgibbs/utils.py, lines 85-110):
    the element line and the count line, built from a dictionary that
    counts atoms per element in order of first appearance, and the flag
    fields written after each atom's coordinates. */
module PoscarWrite {
  import opened Common

  /** The element of every atom, in list order. */
  function Elements(atoms: seq<Atom>): (es: seq<string>)
    ensures |es| == |atoms|
    ensures forall i :: 0 <= i < |atoms| ==> es[i] == atoms[i].elem
  {
    seq(|atoms|, i requires 0 <= i < |atoms| => atoms[i].elem)
  }

  /** The distinct elements of `es` in order of first appearance: the keys
      of a Python dict filled by walking `es`. */
  function Species(es: seq<string>): (r: seq<string>)
    ensures NoDuplicates(r)
    ensures forall e :: e in r <==> e in es
  {
    if es == [] then []
    else
      var init := es[..|es| - 1];
      var x := es[|es| - 1];
      assert es == init + [x];
      var d := Species(init);
      if x in d then d else d + [x]
  }

  /** Index of the first occurrence of `e` in `s`. */
  function FirstIndex(s: seq<string>, e: string): (r: nat)
    requires e in s
    ensures r < |s| && s[r] == e && e !in s[..r]
  {
    if e in s[..|s| - 1] then FirstIndex(s[..|s| - 1], e)
    else |s| - 1
  }

  predicate NoDuplicates(s: seq<string>)
  {
    forall p, q :: 0 <= p < q < |s| ==> s[p] != s[q]
  }

  function Sum(xs: seq<nat>): nat
  {
    if xs == [] then 0 else Sum(xs[..|xs| - 1]) + xs[|xs| - 1]
  }

  /** The count line: for each species, the number of atoms of it. */
  function CountsOf(es: seq<string>, names: seq<string>): (cs: seq<nat>)
    ensures |cs| == |names|
    ensures forall k :: 0 <= k < |names| ==> cs[k] == multiset(es)[names[k]]
  {
    seq(|names|, k requires 0 <= k < |names| => multiset(es)[names[k]])
  }

  /** The species are listed in the order in which they first appear. */
  lemma {:induction false} SpeciesFirstAppearanceOrder(es: seq<string>)
    ensures forall e :: e in Species(es) ==> e in es
    ensures forall p, q :: 0 <= p < q < |Species(es)| ==>
      FirstIndex(es, Species(es)[p]) < FirstIndex(es, Species(es)[q])
  {
    if es != [] {
      var init := es[..|es| - 1];
      var x := es[|es| - 1];
      var d := Species(init);
      SpeciesFirstAppearanceOrder(init);
      assert es == init + [x];
      forall e | e in init ensures FirstIndex(es, e) == FirstIndex(init, e) { }
      if x !in d {
        var s := Species(es);
        assert s == d + [x];
        forall p, q | 0 <= p < q < |s| ensures FirstIndex(es, s[p]) < FirstIndex(es, s[q]) {
          assert s[p] == d[p] && d[p] in init;
          if q < |d| {
            assert s[q] == d[q];
          }
        }
      }
    }
  }

  lemma {:induction false} SumIncrementAt(a: seq<nat>, b: seq<nat>, m: nat)
    requires |a| == |b| && m < |a|
    requires forall k :: 0 <= k < |a| && k != m ==> b[k] == a[k]
    requires b[m] == a[m] + 1
    ensures Sum(b) == Sum(a) + 1
  {
    var n := |a| - 1;
    if m < n {
      SumIncrementAt(a[..n], b[..n], m);
    } else {
      assert a[..n] == b[..n];
    }
  }

  /** Appending `x` adds one to the count of `x` and leaves the others. */
  lemma CountsSnoc(init: seq<string>, x: string, names: seq<string>)
    ensures forall k :: 0 <= k < |names| ==>
      CountsOf(init + [x], names)[k] == CountsOf(init, names)[k] + (if names[k] == x then 1 else 0)
  {
  }

  /** The species of a list one longer than `init`. */
  lemma SpeciesSnoc(init: seq<string>, x: string)
    ensures Species(init + [x]) == if x in Species(init) then Species(init) else Species(init) + [x]
  {
  }

  /** A further atom of a known species raises that species' count. */
  lemma SumCountsKnown(init: seq<string>, x: string)
    requires x in Species(init)
    ensures Sum(CountsOf(init + [x], Species(init + [x]))) == Sum(CountsOf(init, Species(init))) + 1
  {
    var d := Species(init);
    SpeciesSnoc(init, x);
    CountsSnoc(init, x, d);
    var m :| 0 <= m < |d| && d[m] == x;
    SumIncrementAt(CountsOf(init, d), CountsOf(init + [x], d), m);
  }

  lemma SumSnoc(xs: seq<nat>, v: nat)
    ensures Sum(xs + [v]) == Sum(xs) + v
  {
  }

  /** Counting a list extended by an element it did not hold, over the
      names extended by that element. */
  lemma CountsOfNew(init: seq<string>, x: string, names: seq<string>)
    requires x !in init && x !in names
    ensures CountsOf(init + [x], names + [x]) == CountsOf(init, names) + [1]
  {
  }

  /** A further atom of a new species appends a count of one. */
  lemma SumCountsNew(init: seq<string>, x: string)
    requires x !in Species(init)
    ensures Sum(CountsOf(init + [x], Species(init + [x]))) == Sum(CountsOf(init, Species(init))) + 1
  {
    var d := Species(init);
    SpeciesSnoc(init, x);
    CountsOfNew(init, x, d);
    SumSnoc(CountsOf(init, d), 1);
  }

  /** The counts add up to the number of atoms. */
  lemma {:induction false} CountsSumToLength(es: seq<string>)
    ensures Sum(CountsOf(es, Species(es))) == |es|
  {
    if es != [] {
      var init := es[..|es| - 1];
      var x := es[|es| - 1];
      assert es == init + [x];
      CountsSumToLength(init);
      if x in Species(init) {
        SumCountsKnown(init, x);
      } else {
        SumCountsNew(init, x);
      }
    }
  }

  /** What the element and count lines say about the atom list. */
  lemma SpeciesOfAtoms(atoms: seq<Atom>)
    ensures NoDuplicates(Species(Elements(atoms)))
    ensures forall e :: e in Species(Elements(atoms)) <==> exists i :: 0 <= i < |atoms| && atoms[i].elem == e
    ensures Sum(CountsOf(Elements(atoms), Species(Elements(atoms)))) == |atoms|
  {
    var es := Elements(atoms);
    CountsSumToLength(es);
    forall e ensures e in es <==> exists i :: 0 <= i < |atoms| && atoms[i].elem == e {
      if e in es {
        var i :| 0 <= i < |es| && es[i] == e;
        assert atoms[i].elem == e;
      }
    }
  }

  /** One pass of the counting loop of `write_poscar` (lines 93-97). */
  lemma CounterStep(seen: seq<string>, e: string, counter: map<string, nat>, counter': map<string, nat>)
    requires forall x :: x in counter <==> x in Species(seen)
    requires forall x :: x in counter ==> counter[x] == multiset(seen)[x]
    requires counter' == counter[e := if e in counter then counter[e] + 1 else 1]
    ensures Species(seen + [e]) == if e in counter then Species(seen) else Species(seen) + [e]
    ensures forall x :: x in counter' <==> x in Species(seen + [e])
    ensures forall x :: x in counter' ==> counter'[x] == multiset(seen + [e])[x]
  {
    SpeciesSnoc(seen, e);
    assert multiset(seen + [e]) == multiset(seen) + multiset{e};
  }

  /** Lines 94-97, one element: counted, and listed when it is new. */
  method Tally(ghost seen: seq<string>, e: string, counter: map<string, nat>, names: seq<string>)
    returns (counter': map<string, nat>, names': seq<string>)
    requires names == Species(seen)
    requires forall x :: x in counter <==> x in names
    requires forall x :: x in counter ==> counter[x] == multiset(seen)[x]
    ensures names' == Species(seen + [e])
    ensures forall x :: x in counter' <==> x in names'
    ensures forall x :: x in counter' ==> counter'[x] == multiset(seen + [e])[x]
  {
    if e in counter {
      counter' := counter[e := counter[e] + 1];
      names' := names;
    } else {
      counter' := counter[e := 1];
      names' := names + [e];
    }
    CounterStep(seen, e, counter, counter');
  }

  /** Lines 92-97 of `write_poscar`: count the atoms of each element in a
      dictionary whose keys keep their insertion order. */
  method CountSpecies(atoms: seq<Atom>) returns (names: seq<string>, counts: seq<nat>)
    ensures names == Species(Elements(atoms))
    ensures counts == CountsOf(Elements(atoms), names)
  {
    ghost var es := Elements(atoms);
    var counter: map<string, nat> := map[];
    names := [];
    for i := 0 to |atoms|
      invariant names == Species(es[..i])
      invariant forall e :: e in counter <==> e in names
      invariant forall e :: e in counter ==> counter[e] == multiset(es[..i])[e]
    {
      var e := atoms[i].elem;
      assert es[..i + 1] == es[..i] + [e];
      counter, names := Tally(es[..i], e, counter, names);
    }
    assert es[..|atoms|] == es;
    counts := seq(|names|, k requires 0 <= k < |names| => counter[names[k]]);
  }

  /** Lines 105-107: the flags of each atom in turn; `atom[2]` being
      `None` makes `" ".join` raise `TypeError`, and nothing is written. */
  method CollectFlags(atoms: seq<Atom>) returns (ok: bool, flags: seq<seq<string>>)
    ensures ok <==> forall i :: 0 <= i < |atoms| ==> atoms[i].sel.Some?
    ensures ok ==> |flags| == |atoms| && forall i :: 0 <= i < |atoms| ==> flags[i] == atoms[i].sel.value
  {
    flags := [];
    for i := 0 to |atoms|
      invariant |flags| == i
      invariant forall j :: 0 <= j < i ==> atoms[j].sel.Some? && flags[j] == atoms[j].sel.value
    {
      if atoms[i].sel.None? {
        return false, flags;
      }
      flags := flags + [atoms[i].sel.value];
    }
    ok := true;
  }

  /** `write_poscar` minus its floating-point text: the species on the
      element line, the numbers on the count line, and the flag fields of
      each atom line. Line 107 joins `sel`, which raises `TypeError` on an
      atom read without selective dynamics; `ok` is false exactly then, and
      the file is not written. */
  method WritePoscar(atoms: seq<Atom>)
    returns (ok: bool, names: seq<string>, counts: seq<nat>, flags: seq<seq<string>>)
    ensures names == Species(Elements(atoms))
    ensures NoDuplicates(names)
    ensures forall e :: e in names <==> exists i :: 0 <= i < |atoms| && atoms[i].elem == e
    ensures counts == CountsOf(Elements(atoms), names)
    ensures Sum(counts) == |atoms|
    ensures ok <==> forall i :: 0 <= i < |atoms| ==> atoms[i].sel.Some?
    ensures ok ==> |flags| == |atoms| && forall i :: 0 <= i < |atoms| ==> flags[i] == atoms[i].sel.value
  {
    names, counts := CountSpecies(atoms);
    SpeciesOfAtoms(atoms);
    ok, flags := CollectFlags(atoms);
  }
}
