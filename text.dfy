/**
 * Decimal rendering of integers, as string interpolation does it, and the
 * construction of difference paths: `.Name` for a member, `[i]` for a
 * collection element.
 */
module Text {

  function Digit(d: nat): (c: char)
    requires d < 10
  {
    "0123456789"[d]
  }

  predicate IsDigit(c: char) {
    '0' <= c <= '9'
  }

  /** The value of a string of decimal digits (the inverse of NatToString). */
  function ParseNat(s: seq<char>): nat
    requires forall k :: 0 <= k < |s| ==> IsDigit(s[k])
  {
    if s == [] then 0
    else
      assert IsDigit(s[|s| - 1]);
      var d := s[|s| - 1] as int - '0' as int;
      ParseNat(s[..|s| - 1]) * 10 + d
  }

  /** The shortest decimal rendering of n. */
  function NatToString(n: nat): (r: string)
    ensures |r| > 0 && forall k :: 0 <= k < |r| ==> IsDigit(r[k])
    ensures |r| > 1 ==> r[0] != '0'
  {
    if n < 10 then [Digit(n)] else NatToString(n / 10) + [Digit(n % 10)]
  }

  /** The shortest decimal rendering of an int, with a leading minus sign when negative. */
  function IntToString(i: int): (r: string)
    ensures |r| > 0
    ensures (i < 0) == (r[0] == '-')
    ensures i >= 0 ==> (|r| > 1 ==> r[0] != '0')
    ensures i < 0 ==> |r| >= 2 && (|r| > 2 ==> r[1] != '0')
    ensures i >= 0 ==> (forall k :: 0 <= k < |r| ==> IsDigit(r[k])) && ParseNat(r) == i
    ensures i < 0 ==> (forall k :: 0 <= k < |r| - 1 ==> IsDigit(r[1..][k])) && ParseNat(r[1..]) == -i
  {
    if i < 0 then
      ParseNatToString(-i);
      var r := "-" + NatToString(-i);
      assert r[1..] == NatToString(-i);
      r
    else
      ParseNatToString(i);
      NatToString(i)
  }

  lemma {:induction false} ParseNatToString(n: nat)
    ensures ParseNat(NatToString(n)) == n
  {
    var r := NatToString(n);
    if n >= 10 {
      ParseNatToString(n / 10);
      assert r[..|r| - 1] == NatToString(n / 10);
    }
  }

  /** The rendering is one-to-one: distinct counts never print alike. */
  lemma NatToStringInjective(m: nat, n: nat)
    requires NatToString(m) == NatToString(n)
    ensures m == n
  {
    ParseNatToString(m);
    ParseNatToString(n);
  }

  /** The path of a member: its bare name at the root, `path.Name` below it. */
  function SubPath(path: string, name: string): (r: string)
    ensures path == "" ==> r == name
    ensures |path| <= |r| - |name| && path <= r && r[|r| - |name|..] == name
    ensures path != "" ==> |r| == |path| + 1 + |name| && r[|path|] == '.'
  {
    if path == "" then name else path + "." + name
  }

  /** The path of the i-th element of a collection: `path[i]`, the index in its shortest decimal form. */
  function IndexPath(path: string, i: nat): (r: string)
    ensures |r| >= |path| + 3 && path <= r && r[|path|] == '[' && r[|r| - 1] == ']'
    ensures forall k :: |path| < k < |r| - 1 ==> IsDigit(r[k])
    ensures |r| > |path| + 3 ==> r[|path| + 1] != '0'
    ensures ParseNat(r[|path| + 1..|r| - 1]) == i
  {
    var digits := NatToString(i);
    ParseNatToString(i);
    var r := path + "[" + digits + "]";
    assert r[..|path|] == path;
    assert r[|path| + 1..|r| - 1] == digits;
    r
  }
}
