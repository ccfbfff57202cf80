/** The text rewrite at the heart of `prepare_incar` (vaspgibbs/utils.py,
    lines 19-28), on a token view of an INCAR file.

    An INCAR is read as a sequence of tokens: an assignment
    `KEY <sep> <value>` that one of the source's patterns
    `KEY\s*=\s*[\-0-9]+` would match, or raw text that none of them match.
    Rendering the tokens one after the other gives back the file's text. */
module Incar {
  import opened Common

  datatype Token =
    | Assign(key: string, sep: string, value: string)
    | Raw(text: string)

  type Deck = seq<Token>

  datatype IncarError =
    /** `old_incar[-1]` on an empty file raises `IndexError`. */
    | EmptyIncar

  const IBRION: string := "IBRION"
  const NSW: string := "NSW"
  const ISTART: string := "ISTART"
  const ICHARG: string := "ICHARG"

  function TokenText(t: Token): string
  {
    match t
    case Assign(k, s, v) => k + s + v
    case Raw(x) => x
  }

  /** The text of the file the tokens stand for. */
  function Render(d: Deck): string
  {
    if d == [] then [] else TokenText(d[0]) + Render(d[1..])
  }

  lemma {:induction false} RenderConcat(a: Deck, b: Deck)
    ensures Render(a + b) == Render(a) + Render(b)
  {
    if a != [] {
      assert (a + b)[0] == a[0] && (a + b)[1..] == a[1..] + b;
      RenderConcat(a[1..], b);
    } else {
      assert a + b == b;
    }
  }

  /** `re.search(KEY...)`: some assignment of `k` is present. */
  predicate HasKey(d: Deck, k: string)
  {
    exists i :: 0 <= i < |d| && d[i].Assign? && d[i].key == k
  }

  /** Every assignment of `k` in `d` has value `v`. */
  predicate AllValues(d: Deck, k: string, v: string)
  {
    forall i :: 0 <= i < |d| && d[i].Assign? && d[i].key == k ==> d[i].value == v
  }

  function SetToken(t: Token, k: string, v: string): Token
  {
    if t.Assign? && t.key == k then t.(value := v) else t
  }

  /** `re.sub("(K\s*=\s*)[\-0-9]+", "\g<1>v", text)`: every assignment of
      `k` keeps its key and separator and takes the value `v`. */
  function SetKey(d: Deck, k: string, v: string): (r: Deck)
    ensures |r| == |d|
    ensures AllValues(r, k, v)
    ensures forall i :: 0 <= i < |d| ==> r[i].Assign? == d[i].Assign?
    ensures forall i :: 0 <= i < |d| && d[i].Assign? ==> r[i].key == d[i].key && r[i].sep == d[i].sep
    ensures forall i :: 0 <= i < |d| && !(d[i].Assign? && d[i].key == k) ==> r[i] == d[i]
  {
    seq(|d|, i requires 0 <= i < |d| => SetToken(d[i], k, v))
  }

  /** `re.sub("K\s*=\s*[\-0-9]+", "", text)`: every assignment of `k` is
      deleted; the text around it (its newline included) stays. */
  function DropKey(d: Deck, k: string): (r: Deck)
    ensures |r| <= |d|
    ensures forall t :: t in r ==> t in d && !(t.Assign? && t.key == k)
    ensures !HasKey(r, k)
  {
    if d == [] then []
    else if d[0].Assign? && d[0].key == k then DropKey(d[1..], k)
    else [d[0]] + DropKey(d[1..], k)
  }

  /** The deletion removes the assignments of `k` and nothing else: every
      other token occurs in the result as often as in the file. */
  lemma {:induction false} DropKeyCounts(d: Deck, k: string)
    ensures forall t: Token :: !(t.Assign? && t.key == k) ==> multiset(DropKey(d, k))[t] == multiset(d)[t]
  {
    if d != [] {
      DropKeyCounts(d[1..], k);
      assert d == [d[0]] + d[1..];
    }
  }

  /** On a single token the deletion removes it or keeps it; with
      `DropKeyConcat` this makes the deletion an in-order filter. */
  lemma DropKeySingle(t: Token, k: string)
    ensures DropKey([t], k) == if t.Assign? && t.key == k then [] else [t]
  {
    assert [t][1..] == [];
  }

  /** The tokens `prepare_incar` appends when the file has no IBRION:
      `"\n"` (line 22 writes `"\n"` on both arms of its conditional) and
      then `"IBRION = %d\n"`. */
  function IbrionLine(ibrion: int): Deck
  {
    [Raw("\n"), Assign(IBRION, " = ", IntToString(ibrion)), Raw("\n")]
  }

  /** Lines 24-28: drop NSW, then force `ISTART = 1` and `ICHARG = 0`.
      Every token that survives the deletion stays in its place; only the
      values of ISTART and ICHARG change. */
  function Normalize(d: Deck): (r: Deck)
    ensures SameShape(r, DropKey(d, NSW), {ISTART, ICHARG})
    ensures !HasKey(r, NSW)
    ensures AllValues(r, ISTART, "1")
    ensures AllValues(r, ICHARG, "0")
  {
    SetKey(SetKey(DropKey(d, NSW), ISTART, "1"), ICHARG, "0")
  }

  /** Lines 19-22: rewrite every IBRION value, or append an IBRION line
      when there is none. */
  function SetIbrion(d: Deck, ibrion: int): (r: Deck)
    ensures SameShape(r, d + (if HasKey(d, IBRION) then [] else IbrionLine(ibrion)), {IBRION})
    ensures AllValues(r, IBRION, IntToString(ibrion))
  {
    if HasKey(d, IBRION) then SetKey(d, IBRION, IntToString(ibrion))
    else d + IbrionLine(ibrion)
  }

  /** Lines 19-28 of `prepare_incar`. The rewrite fails exactly on an
      empty file: a file with an IBRION assignment is never empty. */
  function PrepareIncar(d: Deck, ibrion: int): (r: Result<Deck, IncarError>)
    ensures r.Err? <==> Render(d) == []
  {
    KeyedRenderNonEmpty(d, IBRION);
    if !HasKey(d, IBRION) && Render(d) == [] then Err(EmptyIncar)
    else Ok(Normalize(SetIbrion(d, ibrion)))
  }

  /** The keys whose values lines 20, 26 and 28 rewrite. */
  const Rewritten: set<string> := {IBRION, ISTART, ICHARG}

  /** A token with the value of an assignment of a key in `ks` blanked
      out: what a substitution of those values keeps of it. */
  function Shape(t: Token, ks: set<string>): Token
  {
    if t.Assign? && t.key in ks then t.(value := []) else t
  }

  /** Position by position the same tokens, up to the values of the keys
      in `ks`. */
  predicate SameShape(a: Deck, b: Deck, ks: set<string>)
  {
    |a| == |b| && forall i :: 0 <= i < |a| ==> Shape(a[i], ks) == Shape(b[i], ks)
  }

  /** Only tokens that none of the four rewrites touch. */
  predicate Untouched(t: Token)
  {
    !(t.Assign? && t.key in {IBRION, NSW, ISTART, ICHARG})
  }

  function Others(d: Deck): Deck
  {
    if d == [] then []
    else if Untouched(d[0]) then [d[0]] + Others(d[1..])
    else Others(d[1..])
  }

  // ---------------------------------------------------------------------
  // Facts about the individual rewrites

  /** A file with an assignment of a non-empty key has text. */
  lemma {:induction false} KeyedRenderNonEmpty(d: Deck, k: string)
    requires k != []
    ensures HasKey(d, k) ==> Render(d) != []
  {
    if d != [] && !(d[0].Assign? && d[0].key == k) {
      KeyedRenderNonEmpty(d[1..], k);
      if HasKey(d, k) {
        var i :| 0 <= i < |d| && d[i].Assign? && d[i].key == k;
        assert d[1..][i - 1] == d[i];
      }
    }
  }

  /** Files of the same shape have the same keys. */
  lemma SameShapeHasKey(a: Deck, b: Deck, ks: set<string>, k: string)
    requires SameShape(a, b, ks)
    ensures HasKey(a, k) == HasKey(b, k)
  {
    if HasKey(a, k) {
      var i :| 0 <= i < |a| && a[i].Assign? && a[i].key == k;
      assert Shape(a[i], ks) == Shape(b[i], ks);
    }
    if HasKey(b, k) {
      var i :| 0 <= i < |b| && b[i].Assign? && b[i].key == k;
      assert Shape(a[i], ks) == Shape(b[i], ks);
    }
  }

  lemma HasKeyConcat(a: Deck, b: Deck, k: string)
    ensures HasKey(a + b, k) <==> HasKey(a, k) || HasKey(b, k)
  {
    if HasKey(a + b, k) {
      var i :| 0 <= i < |a + b| && (a + b)[i].Assign? && (a + b)[i].key == k;
      if i >= |a| { assert b[i - |a|] == (a + b)[i]; }
    }
    if HasKey(a, k) {
      var i :| 0 <= i < |a| && a[i].Assign? && a[i].key == k;
      assert (a + b)[i] == a[i];
    }
    if HasKey(b, k) {
      var i :| 0 <= i < |b| && b[i].Assign? && b[i].key == k;
      assert (a + b)[i + |a|] == b[i];
    }
  }

  /** The deletion works token by token. */
  lemma {:induction false} DropKeyConcat(a: Deck, b: Deck, k: string)
    ensures DropKey(a + b, k) == DropKey(a, k) + DropKey(b, k)
  {
    if a != [] {
      assert (a + b)[0] == a[0] && (a + b)[1..] == a[1..] + b;
      DropKeyConcat(a[1..], b, k);
    } else {
      assert a + b == b;
    }
  }

  lemma SameShapeTrans(a: Deck, b: Deck, c: Deck, ks: set<string>)
    requires SameShape(a, b, ks) && SameShape(b, c, ks)
    ensures SameShape(a, c, ks)
  {
  }

  /** Blanking more values keeps files of the same shape so. */
  lemma SameShapeWiden(a: Deck, b: Deck, ks: set<string>, ks': set<string>)
    requires SameShape(a, b, ks) && ks <= ks'
    ensures SameShape(a, b, ks')
  {
    forall i | 0 <= i < |a| ensures Shape(a[i], ks') == Shape(b[i], ks') {
      assert Shape(a[i], ks) == Shape(b[i], ks);
    }
  }

  /** Files of the same shape lose the same NSW tokens. */
  lemma SameShapeTail(a: Deck, b: Deck, ks: set<string>)
    requires SameShape(a, b, ks) && a != []
    ensures SameShape(a[1..], b[1..], ks)
  {
    forall i | 0 <= i < |a[1..]| ensures Shape(a[1..][i], ks) == Shape(b[1..][i], ks) {
      assert a[1..][i] == a[i + 1] && b[1..][i] == b[i + 1];
    }
  }

  lemma SameShapeCons(x: Token, y: Token, a: Deck, b: Deck, ks: set<string>)
    requires Shape(x, ks) == Shape(y, ks) && SameShape(a, b, ks)
    ensures SameShape([x] + a, [y] + b, ks)
  {
    assert forall i :: 1 <= i <= |a| ==> ([x] + a)[i] == a[i - 1];
    assert forall i :: 1 <= i <= |b| ==> ([y] + b)[i] == b[i - 1];
  }

  lemma {:induction false} DropKeySameShape(a: Deck, b: Deck, ks: set<string>)
    requires SameShape(a, b, ks) && NSW !in ks
    ensures SameShape(DropKey(a, NSW), DropKey(b, NSW), ks)
  {
    if a != [] {
      SameShapeTail(a, b, ks);
      DropKeySameShape(a[1..], b[1..], ks);
      if !(a[0].Assign? && a[0].key == NSW) {
        SameShapeCons(a[0], b[0], DropKey(a[1..], NSW), DropKey(b[1..], NSW), ks);
      }
    }
  }

  /** Assignments of other keys survive the deletion. */
  lemma {:induction false} DropKeyKeepsPresent(d: Deck, k: string, other: string)
    requires other != k && HasKey(d, other)
    ensures HasKey(DropKey(d, k), other)
  {
    var r := DropKey(d, k);
    if d[0].Assign? && d[0].key == other {
      assert r[0] == d[0];
    } else {
      var i :| 0 <= i < |d| && d[i].Assign? && d[i].key == other;
      assert d[1..][i - 1] == d[i];
      DropKeyKeepsPresent(d[1..], k, other);
      var rest := DropKey(d[1..], k);
      var j :| 0 <= j < |rest| && rest[j].Assign? && rest[j].key == other;
      if !(d[0].Assign? && d[0].key == k) {
        assert r == [d[0]] + rest;
        assert r[j + 1] == rest[j];
      }
    }
  }

  lemma DropKeyKeeps(d: Deck, k: string, other: string)
    requires other != k
    ensures HasKey(DropKey(d, k), other) == HasKey(d, other)
  {
    var r := DropKey(d, k);
    if HasKey(r, other) {
      var i :| 0 <= i < |r| && r[i].Assign? && r[i].key == other;
      assert r[i] in d;
      var j :| 0 <= j < |d| && d[j] == r[i];
    }
    if HasKey(d, other) {
      DropKeyKeepsPresent(d, k, other);
    }
  }

  /** Deleting a key that is absent changes nothing. */
  lemma {:induction false} DropKeyAbsent(d: Deck, k: string)
    requires !HasKey(d, k)
    ensures DropKey(d, k) == d
  {
    if d != [] {
      assert !HasKey(d[1..], k) by {
        forall i | 0 <= i < |d[1..]| ensures !(d[1..][i].Assign? && d[1..][i].key == k) {
          assert d[1..][i] == d[i + 1];
        }
      }
      DropKeyAbsent(d[1..], k);
      assert !(d[0].Assign? && d[0].key == k);
      assert d == [d[0]] + d[1..];
    }
  }

  /** Deleting a key keeps the untouched text in order. */
  lemma {:induction false} DropKeyOthers(d: Deck)
    ensures Others(DropKey(d, NSW)) == Others(d)
  {
    if d != [] {
      DropKeyOthers(d[1..]);
      if !(d[0].Assign? && d[0].key == NSW) {
        assert ([d[0]] + DropKey(d[1..], NSW))[1..] == DropKey(d[1..], NSW);
      }
    }
  }

  /** Rewriting the value of a touched key keeps the untouched text. */
  lemma {:induction false} SetKeyOthers(d: Deck, k: string, v: string)
    requires k in {IBRION, NSW, ISTART, ICHARG}
    ensures Others(SetKey(d, k, v)) == Others(d)
  {
    if d != [] {
      var r := SetKey(d, k, v);
      assert r[1..] == SetKey(d[1..], k, v);
      SetKeyOthers(d[1..], k, v);
      assert Untouched(r[0]) == Untouched(d[0]);
      if Untouched(d[0]) { assert r[0] == d[0]; }
    }
  }

  lemma {:induction false} OthersConcat(a: Deck, b: Deck)
    ensures Others(a + b) == Others(a) + Others(b)
  {
    if a != [] {
      assert (a + b)[0] == a[0] && (a + b)[1..] == a[1..] + b;
      OthersConcat(a[1..], b);
    } else {
      assert a + b == b;
    }
  }

  /** The normalisation of lines 24-28 is idempotent. */
  lemma NormalizeIdempotent(d: Deck)
    ensures Normalize(Normalize(d)) == Normalize(d)
  {
    var n := Normalize(d);
    DropKeyAbsent(n, NSW);
  }

  // ---------------------------------------------------------------------
  // What prepare_incar promises

  /** Lines 19-22: afterwards IBRION is present and every assignment of it
      carries the requested value; every token keeps its place, with only
      IBRION values changed, and the IBRION line is appended when there was
      none; the untouched text is kept in order. */
  lemma SetIbrionEffect(d: Deck, ibrion: int)
    ensures HasKey(SetIbrion(d, ibrion), IBRION)
    ensures AllValues(SetIbrion(d, ibrion), IBRION, IntToString(ibrion))
    ensures SameShape(SetIbrion(d, ibrion), d + (if HasKey(d, IBRION) then [] else IbrionLine(ibrion)), {IBRION})
    ensures Others(SetIbrion(d, ibrion)) == Others(d) + (if HasKey(d, IBRION) then [] else [Raw("\n"), Raw("\n")])
  {
    var v := IntToString(ibrion);
    var s1 := SetIbrion(d, ibrion);
    var t := IbrionLine(ibrion);
    if HasKey(d, IBRION) {
      SameShapeHasKey(s1, d, {IBRION}, IBRION);
      SetKeyOthers(d, IBRION, v);
    } else {
      assert s1 == d + t;
      assert s1[|d| + 1] == t[1];
      OthersConcat(d, t);
      assert t[1..][1..] == [Raw("\n")] && t[1..][1..][1..] == [];
      assert Others(t[1..][1..]) == [Raw("\n")];
      assert !Untouched(t[1..][0]);
      assert Others(t[1..]) == [Raw("\n")];
      assert Others(t) == [Raw("\n"), Raw("\n")];
    }
  }

  /** Lines 24-28 remove NSW and force ISTART and ICHARG; every other token
      keeps its place, with only ISTART and ICHARG values changed, so
      IBRION, ISTART and ICHARG stay present exactly when they were, and
      all other text is kept in order. */
  lemma NormalizeEffect(s: Deck, v: string)
    ensures HasKey(Normalize(s), IBRION) == HasKey(s, IBRION)
    ensures HasKey(Normalize(s), ISTART) == HasKey(s, ISTART)
    ensures HasKey(Normalize(s), ICHARG) == HasKey(s, ICHARG)
    ensures AllValues(s, IBRION, v) ==> AllValues(Normalize(s), IBRION, v)
    ensures !HasKey(Normalize(s), NSW)
    ensures AllValues(Normalize(s), ISTART, "1")
    ensures AllValues(Normalize(s), ICHARG, "0")
    ensures SameShape(Normalize(s), DropKey(s, NSW), {ISTART, ICHARG})
    ensures Others(Normalize(s)) == Others(s)
  {
    var d1 := DropKey(s, NSW);
    var r := Normalize(s);
    DropKeyKeeps(s, NSW, IBRION);
    DropKeyKeeps(s, NSW, ISTART);
    DropKeyKeeps(s, NSW, ICHARG);
    SameShapeHasKey(r, d1, {ISTART, ICHARG}, IBRION);
    SameShapeHasKey(r, d1, {ISTART, ICHARG}, ISTART);
    SameShapeHasKey(r, d1, {ISTART, ICHARG}, ICHARG);
    if AllValues(s, IBRION, v) {
      forall i | 0 <= i < |r| && r[i].Assign? && r[i].key == IBRION ensures r[i].value == v {
        assert Shape(r[i], {ISTART, ICHARG}) == Shape(d1[i], {ISTART, ICHARG});
        assert d1[i] in s;
      }
    }
    DropKeyOthers(s);
    SetKeyOthers(d1, ISTART, "1");
    SetKeyOthers(SetKey(d1, ISTART, "1"), ICHARG, "0");
  }

  /** The appended IBRION line assigns no other key. */
  lemma IbrionLineKeys(ibrion: int, k: string)
    requires k != IBRION
    ensures !HasKey(IbrionLine(ibrion), k)
  {
    var t := IbrionLine(ibrion);
    forall i | 0 <= i < |t| ensures !(t[i].Assign? && t[i].key == k) {
      assert i == 0 || i == 1 || i == 2;
    }
  }

  /** ISTART and ICHARG are present after lines 19-28 exactly when they
      were present before. */
  lemma KeysPreserved(d: Deck, ibrion: int, k: string)
    requires k == ISTART || k == ICHARG
    ensures HasKey(Normalize(SetIbrion(d, ibrion)), k) == HasKey(d, k)
  {
    var s1 := SetIbrion(d, ibrion);
    var ext := if HasKey(d, IBRION) then [] else IbrionLine(ibrion);
    var d1 := DropKey(s1, NSW);
    SameShapeHasKey(Normalize(s1), d1, {ISTART, ICHARG}, k);
    DropKeyKeeps(s1, NSW, k);
    SameShapeHasKey(s1, d + ext, {IBRION}, k);
    HasKeyConcat(d, ext, k);
    if !HasKey(d, IBRION) {
      IbrionLineKeys(ibrion, k);
    }
  }

  /** Lines 19-28 on a file they accept: the result has the shape of the
      file without its NSW assignments, followed by the IBRION line when
      there was none; ISTART and ICHARG stay present exactly when they
      were. */
  lemma PrepareIncarShape(d: Deck, ibrion: int)
    ensures SameShape(Normalize(SetIbrion(d, ibrion)),
                      DropKey(d, NSW) + (if HasKey(d, IBRION) then [] else IbrionLine(ibrion)), Rewritten)
    ensures HasKey(Normalize(SetIbrion(d, ibrion)), ISTART) == HasKey(d, ISTART)
    ensures HasKey(Normalize(SetIbrion(d, ibrion)), ICHARG) == HasKey(d, ICHARG)
  {
    var s1 := SetIbrion(d, ibrion);
    var ext := if HasKey(d, IBRION) then [] else IbrionLine(ibrion);
    DropKeySameShape(s1, d + ext, {IBRION});
    SameShapeWiden(DropKey(s1, NSW), DropKey(d + ext, NSW), {IBRION}, Rewritten);
    SameShapeWiden(Normalize(s1), DropKey(s1, NSW), {ISTART, ICHARG}, Rewritten);
    DropKeyConcat(d, ext, NSW);
    if !HasKey(d, IBRION) {
      IbrionLineKeys(ibrion, NSW);
    }
    DropKeyAbsent(ext, NSW);
    SameShapeTrans(Normalize(s1), DropKey(s1, NSW), DropKey(d, NSW) + ext, Rewritten);
    KeysPreserved(d, ibrion, ISTART);
    KeysPreserved(d, ibrion, ICHARG);
  }

  /** The only failure is an empty file (line 22 reads its last
      character); on success IBRION is present with the requested value
      everywhere, NSW is gone, every ISTART is 1 and every ICHARG is 0.
      Every other token keeps its place and its text, only the values of
      IBRION, ISTART and ICHARG change, and the IBRION line is appended
      when there was none; in particular ISTART and ICHARG stay present
      exactly when they were. */
  lemma PrepareIncarEffect(d: Deck, ibrion: int)
    ensures PrepareIncar(d, ibrion).Ok? <==> HasKey(d, IBRION) || Render(d) != []
    ensures PrepareIncar(d, ibrion).Ok? ==>
      var r := PrepareIncar(d, ibrion).value;
      && HasKey(r, IBRION)
      && AllValues(r, IBRION, IntToString(ibrion))
      && !HasKey(r, NSW)
      && AllValues(r, ISTART, "1")
      && AllValues(r, ICHARG, "0")
      && HasKey(r, ISTART) == HasKey(d, ISTART)
      && HasKey(r, ICHARG) == HasKey(d, ICHARG)
      && SameShape(r, DropKey(d, NSW) + (if HasKey(d, IBRION) then [] else IbrionLine(ibrion)), Rewritten)
      && Others(r) == Others(d) + (if HasKey(d, IBRION) then [] else [Raw("\n"), Raw("\n")])
  {
    SetIbrionEffect(d, ibrion);
    NormalizeEffect(SetIbrion(d, ibrion), IntToString(ibrion));
    PrepareIncarShape(d, ibrion);
  }

  /** The text of the appended tokens is `"\n" + "IBRION = <n>\n"`. */
  lemma IbrionLineText(ibrion: int)
    ensures Render(IbrionLine(ibrion)) == "\n" + (IBRION + " = " + IntToString(ibrion)) + "\n"
  {
    var t := IbrionLine(ibrion);
    assert t[1..][1..] == [Raw("\n")] && t[1..][1..][1..] == [];
    assert Render(t[1..][1..]) == "\n";
    assert Render(t[1..]) == (IBRION + " = " + IntToString(ibrion)) + "\n";
  }

  /** When IBRION is missing, the file's text gains exactly
      `"\n" + "IBRION = <n>\n"` before the other rewrites. */
  lemma AppendedText(d: Deck, ibrion: int)
    requires !HasKey(d, IBRION)
    ensures Render(SetIbrion(d, ibrion)) == Render(d) + "\n" + (IBRION + " = " + IntToString(ibrion)) + "\n"
  {
    RenderConcat(d, IbrionLine(ibrion));
    IbrionLineText(ibrion);
  }

  /** Applying the rewrite twice with the same IBRION equals applying it
      once. */
  lemma PrepareIncarIdempotent(d: Deck, ibrion: int)
    requires PrepareIncar(d, ibrion).Ok?
    ensures PrepareIncar(PrepareIncar(d, ibrion).value, ibrion) == PrepareIncar(d, ibrion)
  {
    var r := PrepareIncar(d, ibrion).value;
    var v := IntToString(ibrion);
    PrepareIncarEffect(d, ibrion);
    assert SetKey(r, IBRION, v) == r;
    var s1 := SetIbrion(d, ibrion);
    NormalizeIdempotent(s1);
  }
}
