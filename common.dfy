/** Values shared by the POSCAR routines of vaspgibbs/utils.py: atoms,
    fractional positions, selective-dynamics flags and the decimal
    rendering that Python's `str(int)` and `"%d"` produce. */
module Common {

  datatype Option<T> = None | Some(value: T)

  datatype Result<T, E> = Ok(value: T) | Err(error: E)

  /** A fractional (or Cartesian) position. Floating-point coordinates are
      modelled as exact reals. */
  datatype Pos = Pos(x: real, y: real, z: real)

  /** An atom as the source keeps it: `[elem, pos, sel]`, where `sel` is the
      selective-dynamics triple, or `None` when the POSCAR had no
      "Selective dynamics" line. Flags are the raw strings that follow the
      coordinates on an atom line. */
  datatype Atom = Atom(elem: string, pos: Pos, sel: Option<seq<string>>)

  /** `["T","T","T"]`: free to relax along every axis. */
  const Relax: seq<string> := ["T", "T", "T"]

  /** `["F","F","F"]`: frozen along every axis. */
  const Freeze: seq<string> := ["F", "F", "F"]

  function DigitChar(d: nat): (c: char)
    requires d < 10
    ensures '0' <= c <= '9'
  {
    (48 + d) as char
  }

  function DigitValue(c: char): nat
    requires '0' <= c <= '9'
  {
    c as int - 48
  }

  /** Python's `str(n)` for a non-negative integer: decimal digits with no
      leading zero (except for 0 itself). */
  function NatToString(n: nat): (s: string)
    ensures |s| >= 1
    ensures forall i :: 0 <= i < |s| ==> '0' <= s[i] <= '9'
    ensures |s| > 1 ==> s[0] != '0'
    decreases n
  {
    if n < 10 then [DigitChar(n)] else NatToString(n / 10) + [DigitChar(n % 10)]
  }

  /** Reads back a string of decimal digits. */
  function DigitsValue(s: string): nat
    requires forall i :: 0 <= i < |s| ==> '0' <= s[i] <= '9'
  {
    if s == [] then 0 else 10 * DigitsValue(s[..|s| - 1]) + DigitValue(s[|s| - 1])
  }

  /** Decimal rendering is injective: it reads back to the number it
      renders, so two indices never share a string (the selection rule
      relies on this when it compares `str(i)` with the inclusion list). */
  lemma {:induction false} NatToStringRoundTrip(n: nat)
    ensures DigitsValue(NatToString(n)) == n
    decreases n
  {
    if n >= 10 {
      var s := NatToString(n);
      assert s[..|s| - 1] == NatToString(n / 10);
      NatToStringRoundTrip(n / 10);
    }
  }

  lemma NatToStringInjective(m: nat, n: nat)
    requires NatToString(m) == NatToString(n)
    ensures m == n
  {
    NatToStringRoundTrip(m);
    NatToStringRoundTrip(n);
  }

  /** Python's `"%d" % n`: a minus sign before the digits of a negative
      number; the digits read back to the magnitude of `n`. */
  function IntToString(n: int): (s: string)
    ensures |s| >= 1
    ensures (s[0] == '-') <==> n < 0
    ensures forall i :: (if n < 0 then 1 else 0) <= i < |s| ==> '0' <= s[i] <= '9'
    ensures DigitsValue(if n < 0 then s[1..] else s) == if n < 0 then -n else n
  {
    if n < 0 then
      NatToStringRoundTrip(-n);
      assert ("-" + NatToString(-n))[1..] == NatToString(-n);
      "-" + NatToString(-n)
    else
      NatToStringRoundTrip(n);
      NatToString(n)
  }
}
