/** Sequences and powers of two, as the other modules need them. */
module Base {

  datatype Option<+T> = None | Some(value: T)

  newtype byte = x: int | 0 <= x < 256

  // ---- sequences

  ghost predicate NoDup<T>(s: seq<T>) {
    forall i, j :: 0 <= i < j < |s| ==> s[i] != s[j]
  }

  /** The place of the first x in s, or |s|. */
  function Pos<T(==)>(s: seq<T>, x: T): (i: nat)
    ensures i <= |s|
    ensures i < |s| ==> s[i] == x
    ensures i < |s| <==> x in s
    ensures x !in s[..i]
  {
    if s == [] then 0
    else if s[0] == x then 0
    else
      var i := Pos(s[1..], x);
      assert s[..1 + i] == [s[0]] + s[1..][..i];
      1 + i
  }

  lemma {:induction false} FirstPos<T>(s: seq<T>, x: T, i: nat)
    requires i < |s| && s[i] == x && x !in s[..i]
    ensures Pos(s, x) == i
  {
    if i > 0 {
      assert s[..i] == [s[0]] + s[1..][..i - 1];
      FirstPos(s[1..], x, i - 1);
    }
  }

  function Delete<T>(s: seq<T>, i: nat): seq<T>
    requires i < |s|
  {
    s[..i] + s[i + 1..]
  }

  lemma NoDupPos<T>(s: seq<T>, i: nat)
    requires NoDup(s) && i < |s|
    ensures Pos(s, s[i]) == i
  {
    assert s[Pos(s, s[i])] == s[i];
  }

  lemma InDelete<T>(s: seq<T>, i: nat, x: T)
    requires NoDup(s) && i < |s|
    ensures x in Delete(s, i) <==> x in s && x != s[i]
    ensures NoDup(Delete(s, i))
  {
    if x in s && x != s[i] {
      var j := Pos(s, x);
      assert Delete(s, i)[if j < i then j else j - 1] == x;
    }
  }

  lemma DeleteInside<T>(s: seq<T>, i: nat)
    requires i < |s|
    ensures forall x :: x in Delete(s, i) ==> x in s
    ensures NoDup(s) ==> NoDup(Delete(s, i)) && s[i] !in Delete(s, i)
  {}

  /** A duplicate-free sequence inside another is no longer than it. */
  lemma {:induction false} NoDupInside<T>(s: seq<T>, t: seq<T>)
    requires NoDup(s)
    requires forall x :: x in s ==> x in t
    ensures |s| <= |t|
    decreases |s|
  {
    if s != [] {
      var x := s[|s| - 1];
      var i := Pos(t, x);
      var t' := Delete(t, i);
      forall y | y in s[..|s| - 1]
        ensures y in t'
      {
        assert y in t && y != x;
        var j := Pos(t, y);
        assert t'[if j < i then j else j - 1] == y;
      }
      NoDupInside(s[..|s| - 1], t');
    }
  }

  // ---- bytes

  type Bytes = seq<byte>

  /** Four bytes as a number, the highest first. */
  function GetWord(b: Bytes): (w: int)
    requires |b| >= 4
    ensures 0 <= w < 0x1_0000_0000
  {
    b[0] as int * 0x100_0000 + b[1] as int * 0x1_0000 + b[2] as int * 0x100 + b[3] as int
  }

  /** A word is its four bytes, the highest first. */
  lemma Digits(w: int)
    requires w >= 0
    ensures w == (w / 0x100_0000) * 0x100_0000 + (w / 0x1_0000 % 0x100) * 0x1_0000 + (w / 0x100 % 0x100) * 0x100 + w % 0x100
  {
    var a := w / 0x100;
    var b := w / 0x1_0000;
    assert w / 0x100_0000 == b / 0x100 && b == a / 0x100;
    assert b == b / 0x100 * 0x100 + b % 0x100 && a == b * 0x100 + a % 0x100 && w == a * 0x100 + w % 0x100;
  }

  function Zeros(n: nat): (z: Bytes)
    ensures |z| == n
  {
    seq(n, _ => 0)
  }

  function Concat(pieces: seq<Bytes>): Bytes {
    if pieces == [] then [] else pieces[0] + Concat(pieces[1..])
  }

  lemma {:induction false} ConcatAppend(pieces: seq<Bytes>, p: Bytes)
    ensures Concat(pieces + [p]) == Concat(pieces) + p
  {
    if pieces == [] {
      assert pieces + [p] == [p];
      assert [p][1..] == [];
    } else {
      assert (pieces + [p])[1..] == pieces[1..] + [p];
      ConcatAppend(pieces[1..], p);
    }
  }

  // ---- powers of two and masks

  function Pow2(k: nat): (p: nat)
    ensures p >= 1
  {
    if k == 0 then 1 else 2 * Pow2(k - 1)
  }

  lemma {:induction false} Pow2Exceeds(k: nat)
    ensures k < Pow2(k)
  {
    if k > 0 { Pow2Exceeds(k - 1); }
  }

  lemma {:induction false} Pow2Sum(i: nat, j: nat)
    ensures Pow2(i + j) == Pow2(i) * Pow2(j)
  {
    if i > 0 { Pow2Sum(i - 1, j); }
  }

  lemma {:induction false} Pow2Monotone(i: nat, j: nat)
    requires i < j
    ensures Pow2(i) < Pow2(j)
    decreases j
  {
    if i < j - 1 { Pow2Monotone(i, j - 1); }
  }

  /** Bitwise and. */
  function BitAnd(a: nat, b: nat): (r: nat)
    ensures r <= b
    decreases a
  {
    if a == 0 || b == 0 then 0
    else (if a % 2 == 1 && b % 2 == 1 then 1 else 0) + 2 * BitAnd(a / 2, b / 2)
  }

  lemma MulAtLeast(m: int, d: int)
    requires m >= 1
    ensures d >= 1 ==> m * d >= m
    ensures d <= -1 ==> m * d <= -m
  {}

  lemma ModUnique(x: int, m: int, q: int, r: int)
    requires 0 <= r < m && x == q * m + r
    ensures x % m == r
  {
    var d := x / m - q;
    assert x == m * (x / m) + x % m;
    assert m * d == r - x % m;
    MulAtLeast(m, d);
  }

  lemma HalfMod(a: nat, p: nat)
    requires p >= 1
    ensures a % (2 * p) == 2 * ((a / 2) % p) + a % 2
  {
    var q, r := (a / 2) / p, (a / 2) % p;
    assert a / 2 == p * q + r;
    assert a == q * (2 * p) + (2 * r + a % 2) by {
      assert a == 2 * (a / 2) + a % 2;
      assert 2 * (p * q) == q * (2 * p);
    }
    ModUnique(a, 2 * p, q, 2 * r + a % 2);
  }

  lemma ModOfMultiple(a: nat, c: nat, m: nat)
    requires c >= 1 && m >= 1 && c * m >= 1
    ensures (a % (c * m)) % m == a % m
  {
    var n := c * m;
    var q, r := a / n, a % n;
    assert a == n * q + r;
    var s := r / m;
    assert r == m * s + r % m;
    assert n * q == (c * q) * m by { assert (c * m) * q == (c * q) * m; }
    assert (c * q + s) * m == (c * q) * m + m * s;
    ModUnique(a, m, c * q + s, r % m);
  }

  lemma NoBits(a: nat)
    ensures BitAnd(a, 0) == 0 && forall b: nat :: BitAnd(0, b) == 0
  {}

  lemma OddMask(a: nat, p: nat)
    requires a > 0 && p >= 1
    ensures BitAnd(a, 2 * p - 1) == a % 2 + 2 * BitAnd(a / 2, p - 1)
  {
    assert (2 * p - 1) % 2 == 1 && (2 * p - 1) / 2 == p - 1;
  }

  lemma Pow2Double(k: nat)
    ensures Pow2(0) == 1 && (k > 0 ==> Pow2(k) == 2 * Pow2(k - 1))
  {}

  /** Masking with 2^k - 1 takes the remainder modulo 2^k. */
  lemma {:induction false} MaskIsMod(a: nat, k: nat)
    ensures BitAnd(a, Pow2(k) - 1) == a % Pow2(k)
    decreases k
  {
    hide BitAnd, Pow2;
    NoBits(a);
    Pow2Double(k);
    if a == 0 {
      ModUnique(0, Pow2(k), 0, 0);
    } else if k == 0 {
      ModUnique(a, 1, a, 0);
    } else {
      var p := Pow2(k - 1);
      MaskIsMod(a / 2, k - 1);
      HalfMod(a, p);
      OddMask(a, p);
    }
  }

  /** Reducing modulo a larger power of two first changes nothing. */
  lemma ModMod(a: nat, i: nat, j: nat)
    requires i <= j
    ensures (a % Pow2(j)) % Pow2(i) == a % Pow2(i)
  {
    Pow2Sum(j - i, i);
    ModOfMultiple(a, Pow2(j - i), Pow2(i));
  }
}
