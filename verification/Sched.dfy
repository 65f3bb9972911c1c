/**
 * The probe sequence of sched_yield in kern/sched.c.  The search advances by 0, 1, 2, ... slots, so it
 * visits start plus the triangular numbers, modulo the number of slots.
 */
module Sched {
  import opened Wrappers
  import opened EnvIds
  import opened EnvState

  /** The slot looked at in iteration i: idx = (idx + i) % n. */
  function Probe(n: nat, start: nat, i: nat): (r: nat)
    requires n > 0
    ensures r < n
  {
    if i == 0 then start % n else (Probe(n, start, i - 1) + i) % n
  }

  function Triangle(i: nat): nat { i * (i + 1) / 2 }

  lemma {:induction false} ProbeIsTriangular(n: nat, start: nat, i: nat)
    requires n > 0
    ensures Probe(n, start, i) == (start + Triangle(i)) % n
  {
    if i == 0 {
    } else {
      ProbeIsTriangular(n, start, i - 1);
      TriangleStep(i);
      ModAdd(start + Triangle(i - 1), i, n);
    }
  }

  lemma TriangleStep(i: nat)
    requires i > 0
    ensures Triangle(i) == Triangle(i - 1) + i
  {
    assert i * (i + 1) == (i - 1) * i + 2 * i;
  }

  lemma {:induction false} DoubleTriangle(i: nat)
    ensures 2 * Triangle(i) == i * (i + 1)
  {
    if i == 0 {
    } else {
      DoubleTriangle(i - 1);
      TriangleStep(i);
      assert i * (i + 1) == (i - 1) * i + 2 * i;
    }
  }

  lemma MulAtLeast(x: int, n: nat)
    requires x >= 1
    ensures x * n >= n
  {
    assert x * n == (x - 1) * n + n;
  }

  lemma ModUnique(a: int, n: nat, q: int, r: nat)
    requires n > 0 && a == q * n + r && r < n
    ensures a % n == r && a / n == q
  {
    var x := q - a / n;
    assert a == (a / n) * n + a % n;
    assert x * n == a % n - r;
    if x >= 1 {
      MulAtLeast(x, n);
    } else if x <= -1 {
      MulAtLeast(-x, n);
    }
  }

  lemma ModAdd(a: nat, b: nat, n: nat)
    requires n > 0
    ensures (a % n + b) % n == (a + b) % n
  {
    var q := (a % n + b) / n;
    assert a + b == (a / n + q) * n + (a % n + b) % n;
    ModUnique(a + b, n, a / n + q, (a % n + b) % n);
  }

  function Pow2(k: nat): (r: nat)
    ensures r > 0
  {
    if k == 0 then 1 else 2 * Pow2(k - 1)
  }

  function Product(a: int, b: int): int { a * b }

  predicate Divides(n: nat, p: int)
    requires n > 0
  {
    p % n == 0
  }

  /** An odd factor cancels modulo a power of two. */
  lemma {:induction false} OddCancels(a: nat, b: nat, k: nat)
    requires a % 2 == 1 && a * b % Pow2(k) == 0
    ensures b % Pow2(k) == 0
  {
    if k == 0 {
    } else {
      var m := Pow2(k - 1);
      var c := a * b / (2 * m);
      assert a * b == 2 * (c * m);
      OddTimes(a, b);
      var h := b / 2;
      assert b == 2 * h;
      assert a * h == c * m by {
        assert 2 * (a * h) == 2 * (c * m);
      }
      ModUnique(a * h, m, c, 0);
      OddCancels(a, h, k - 1);
      assert h == (h / m) * m;
      ModUnique(b, 2 * m, h / m, 0);
    }
  }

  lemma OddTimes(a: nat, b: int)
    requires a % 2 == 1 && a * b % 2 == 0
    ensures b % 2 == 0
  {
    var x := a / 2;
    assert a * b == 2 * (x * b) + b;
  }

  /** No multiple of n lies strictly between 0 and n. */
  lemma NoMultipleBetween(b: nat, n: nat)
    requires 0 < b < n
    ensures b % n != 0
  {
  }

  lemma TriangleDifference(i: nat, j: nat)
    requires i < j
    ensures Product(j - i, j + i + 1) == 2 * (Triangle(j) - Triangle(i))
  {
    DoubleTriangle(i);
    DoubleTriangle(j);
    assert (j - i) * (j + i + 1) == j * (j + 1) - i * (i + 1);
  }

  lemma SameRemainder(x: nat, y: nat, n: nat)
    requires n > 0 && x % n == y % n
    ensures y - x == (y / n - x / n) * n
  {
    assert x == (x / n) * n + x % n && y == (y / n) * n + y % n;
  }

  /** A product of two factors below 2^k, one of them odd, is no multiple of 2^k. */
  lemma ProductNotMultiple(a: nat, b: nat, k: nat)
    requires 0 < a < Pow2(k) && 0 < b < Pow2(k) && (a % 2 == 1 || b % 2 == 1)
    ensures !Divides(Pow2(k), Product(a, b))
  {
    if Divides(Pow2(k), Product(a, b)) {
      if a % 2 == 1 {
        OddCancels(a, b, k);
        NoMultipleBetween(b, Pow2(k));
      } else {
        assert b * a == a * b;
        OddCancels(b, a, k);
        NoMultipleBetween(a, Pow2(k));
      }
    }
  }

  /** Triangular numbers of different i, j below 2^k differ modulo 2^k. */
  lemma TrianglesDiffer(k: nat, start: nat, i: nat, j: nat)
    requires i < j < Pow2(k)
    ensures (start + Triangle(i)) % Pow2(k) != (start + Triangle(j)) % Pow2(k)
  {
    assert Pow2(k + 1) == 2 * Pow2(k);
    hide Triangle, Pow2, Product, Divides;
    if (start + Triangle(i)) % Pow2(k) == (start + Triangle(j)) % Pow2(k) {
      CongruentDifference(k, start + Triangle(i), start + Triangle(j), Triangle(j) - Triangle(i));
      TriangleDifference(i, j);
      OneIsOdd(j - i, j + i + 1, j);
      ProductNotMultiple(j - i, j + i + 1, k + 1);
    }
  }

  lemma OneIsOdd(a: int, b: int, j: int)
    requires a + b == 2 * j + 1
    ensures a % 2 == 1 || b % 2 == 1
  {
  }

  lemma CongruentDifference(k: nat, x: nat, y: nat, t: int)
    requires x % Pow2(k) == y % Pow2(k) && t == y - x
    ensures Divides(Pow2(k + 1), 2 * t)
  {
    SameRemainder(x, y, Pow2(k));
    var c := y / Pow2(k) - x / Pow2(k);
    Reassociate(c, Pow2(k), 2);
    ModUnique(2 * t, Pow2(k + 1), c, 0);
  }

  /** The first 2^k probes are pairwise different. */
  lemma ProbesDiffer(k: nat, start: nat, i: nat, j: nat)
    requires i < j < Pow2(k)
    ensures Probe(Pow2(k), start, i) != Probe(Pow2(k), start, j)
  {
    ProbeIsTriangular(Pow2(k), start, i);
    ProbeIsTriangular(Pow2(k), start, j);
    TrianglesDiffer(k, start, i, j);
  }

  /** The slots that the n iterations of the search look at. */
  ghost function Probes(n: nat, start: nat): (r: seq<nat>)
    requires n > 0
    ensures |r| == n && forall i :: 0 <= i < n ==> r[i] == Probe(n, start, i)
  {
    seq(n, i requires 0 <= i < n => Probe(n, start, i))
  }

  ghost function Below(n: nat): (r: set<nat>)
    ensures forall s: nat :: s in r <==> s < n
    ensures |r| == n
  {
    if n == 0 then {} else Below(n - 1) + {n - 1}
  }

  ghost function Elements(s: seq<nat>): (r: set<nat>)
    ensures forall x :: x in r <==> x in s
    ensures |r| <= |s|
    ensures (forall i, j :: 0 <= i < j < |s| ==> s[i] != s[j]) ==> |r| == |s|
  {
    if s == [] then {}
    else
      var t := s[..|s| - 1];
      assert s == t + [s[|s| - 1]];
      Elements(t) + {s[|s| - 1]}
  }

  /** n different numbers below n are all of them. */
  lemma Pigeonhole(s: seq<nat>)
    requires forall i :: 0 <= i < |s| ==> s[i] < |s|
    requires forall i, j :: 0 <= i < j < |s| ==> s[i] != s[j]
    ensures forall x :: 0 <= x < |s| ==> x in s
  {
    var e, b := Elements(s), Below(|s|);
    assert b == e + (b - e);
    assert |b| == |e| + |b - e|;
  }

  /** The search looks at every slot. */
  ghost predicate ReachesAll(n: nat, start: nat)
    requires n > 0
  {
    forall s :: 0 <= s < n ==> s in Probes(n, start)
  }

  /** For a power of two the probes reach every slot. */
  lemma PowerOfTwoReachesAll(k: nat, start: nat)
    ensures ReachesAll(Pow2(k), start)
  {
    var p := Probes(Pow2(k), start);
    forall i, j | 0 <= i < j < |p| ensures p[i] != p[j] {
      ProbesDiffer(k, start, i, j);
    }
    Pigeonhole(p);
  }

  /** The triangular numbers from start on, modulo m, in the first c iterations. */
  ghost function Residues(start: nat, m: nat, c: nat): (r: seq<nat>)
    requires m > 0
    ensures |r| == c && forall i :: 0 <= i < c ==> r[i] == (start + Triangle(i)) % m
  {
    seq(c, i requires 0 <= i < c => (start + Triangle(i)) % m)
  }

  /** Modulo an odd factor m of n, only the first m - 1 triangular numbers matter. */
  lemma ProbeResidue(n: nat, m: nat, start: nat, i: nat)
    requires n > 0 && m % 2 == 1 && m > 1 && n % m == 0
    ensures Probe(n, start, i) % m in Residues(start, m, m - 1)
  {
    ProbeIsTriangular(n, start, i);
    DividesBack(n, m);
    ModOfMod(start + Triangle(i), n / m, m);
    TrianglePeriod(start, i, m);
    hide Probe, Triangle;
    var r := if i % m == m - 1 then 0 else i % m;
    assert Residues(start, m, m - 1)[r] == (start + Triangle(r)) % m;
  }

  lemma DividesBack(n: nat, m: nat)
    requires n > 0 && m > 0 && n % m == 0
    ensures n / m > 0 && n == (n / m) * m
  {
  }

  /** An odd factor of n hides a slot: modulo m the triangular numbers 0 and m - 1 coincide. */
  lemma OddFactorMisses(n: nat, m: nat, start: nat)
    requires n > 0 && m % 2 == 1 && m > 1 && n % m == 0
    ensures !ReachesAll(n, start)
  {
    if ReachesAll(n, start) {
      FactorNotLarger(n, m);
      forall s | s in Below(m) ensures s in Residues(start, m, m - 1) {
        var p := Probes(n, start);
        assert s in p;
        var i :| 0 <= i < n && p[i] == s;
        ProbeResidue(n, m, start, i);
        SmallMod(s, m);
      }
      TooFew(Residues(start, m, m - 1), m);
    }
  }

  lemma SmallMod(s: nat, m: nat)
    requires s < m
    ensures s % m == s
  {
  }

  lemma FactorNotLarger(n: nat, m: nat)
    requires n > 0 && m > 0 && n % m == 0
    ensures m <= n
  {
  }

  /** Fewer than m numbers cannot be all those below m. */
  lemma TooFew(s: seq<nat>, m: nat)
    requires |s| < m
    ensures exists x :: x in Below(m) && x !in s
  {
    if forall x :: x in Below(m) ==> x in s {
      SubsetSize(Below(m), Elements(s));
    }
  }

  lemma ModOfMod(a: nat, q: nat, m: nat)
    requires m > 0 && q > 0
    ensures q * m > 0 && a % (q * m) % m == a % m
  {
    var n := q * m;
    MulAtLeast(q, m);
    var r := a % n;
    assert a == (a / n) * n + r;
    assert (a / n) * n == ((a / n) * q) * m;
    assert a == ((a / n) * q + r / m) * m + r % m;
    ModUnique(a, m, (a / n) * q + r / m, r % m);
  }

  /** For odd m the triangular numbers modulo m have period m, and the last of a period equals the first. */
  lemma TrianglePeriod(start: nat, i: nat, m: nat)
    requires m > 1 && m % 2 == 1
    ensures (start + Triangle(i)) % m == (start + Triangle(if i % m == m - 1 then 0 else i % m)) % m
  {
    var r := i % m;
    var w := TriangleWraps(i, m);
    AddMultiple(start + Triangle(r), w, m);
    if r == m - 1 {
      DoubleTriangle(r);
      assert r * (r + 1) == 2 * ((m / 2) * m);
      assert Triangle(0) == 0;
      AddMultiple(start, m / 2, m);
    }
  }

  lemma AddMultiple(x: int, w: int, m: nat)
    requires m > 0
    ensures (x + w * m) % m == x % m
  {
    assert x + w * m == (x / m + w) * m + x % m;
    ModUnique(x + w * m, m, x / m + w, x % m);
  }

  lemma TriangleWraps(i: nat, m: nat) returns (w: int)
    requires m % 2 == 1
    ensures Triangle(i) == Triangle(i % m) + w * m
  {
    DoubleTriangle(i);
    DoubleTriangle(i % m);
    w := HalfMultiple(i, i % m, Triangle(i), Triangle(i % m), m, i / m);
  }

  lemma HalfMultiple(i: nat, r: nat, ti: int, tr: int, m: nat, q: int) returns (w: int)
    requires m % 2 == 1 && 2 * ti == i * (i + 1) && 2 * tr == r * (r + 1) && i == q * m + r
    ensures ti == tr + w * m
  {
    var e, s := i - r, i + r + 1;
    SquareDifference(i, r, e, s);
    w := HalfProduct(e, s, ti - tr, m, q);
  }

  lemma SquareDifference(i: int, r: int, e: int, s: int)
    requires e == i - r && s == i + r + 1
    ensures i * (i + 1) - r * (r + 1) == e * s
  {
  }

  lemma HalfProduct(e: int, s: int, t: int, m: nat, q: int) returns (w: int)
    requires m % 2 == 1 && e == q * m && 2 * t == e * s
    ensures t == w * m
  {
    Reassociate(q, m, s);
    w := HalfOf(q * s, t, m);
  }

  lemma HalfOf(z: int, t: int, m: nat) returns (w: int)
    requires m % 2 == 1 && 2 * t == m * z
    ensures t == w * m
  {
    OddTimes(m, z);
    w := z / 2;
    Reassociate(2, w, m);
  }

  lemma Reassociate(q: int, m: int, x: int)
    ensures (q * m) * x == m * (q * x) && (q * m) * x == q * (x * m)
  {
  }

  predicate PowerOfTwo(n: nat) {
    n == 1 || (n > 0 && n % 2 == 0 && PowerOfTwo(n / 2))
  }

  lemma {:induction false} PowerOfTwoIsPow2(n: nat) returns (k: nat)
    requires PowerOfTwo(n)
    ensures n == Pow2(k)
  {
    if n == 1 {
      k := 0;
    } else {
      var h := PowerOfTwoIsPow2(n / 2);
      k := h + 1;
    }
  }

  lemma {:induction false} OddFactor(n: nat) returns (m: nat)
    requires n > 0 && !PowerOfTwo(n)
    ensures m > 1 && m % 2 == 1 && n % m == 0
  {
    if n % 2 == 1 {
      m := n;
    } else {
      m := OddFactor(n / 2);
      DividesBack(n / 2, m);
      ModUnique(n, m, 2 * (n / 2 / m), 0);
    }
  }

  /** Stepping by 1, 2, 3, ... reaches all of n slots from any start exactly if n is a power of two. */
  lemma ReachesAllIffPowerOfTwo(n: nat, start: nat)
    requires n > 0
    ensures ReachesAll(n, start) <==> PowerOfTwo(n)
  {
    if PowerOfTwo(n) {
      var k := PowerOfTwoIsPow2(n);
      PowerOfTwoReachesAll(k, start);
    } else {
      var m := OddFactor(n);
      OddFactorMisses(n, m, start);
    }
  }

  /** The first RUNNABLE slot from iteration i of the search on. */
  function PickFrom(st: seq<Status>, start: nat, i: nat): (r: Option<nat>)
    requires i <= |st|
    ensures r.Some? ==> r.value < |st| && st[r.value] == Runnable
    decreases |st| - i
  {
    if i == |st| then None
    else if st[Probe(|st|, start, i)] == Runnable then Some(Probe(|st|, start, i))
    else PickFrom(st, start, i + 1)
  }

  /** The environment the search of sched_yield finds. */
  function Pick(st: seq<Status>, start: nat): (r: Option<nat>)
    ensures r.Some? ==> r.value < |st| && st[r.value] == Runnable
  {
    PickFrom(st, start, 0)
  }

  /** r is the RUNNABLE slot of least probe index. */
  ghost predicate FirstProbed(st: seq<Status>, start: nat, r: nat) {
    exists i ::
      && 0 <= i < |st| && Probe(|st|, start, i) == r && st[r] == Runnable
      && forall j :: 0 <= j < i ==> st[Probe(|st|, start, j)] != Runnable
  }

  lemma {:induction false} PickFromIsFirst(st: seq<Status>, start: nat, i: nat)
    requires i <= |st| && forall j :: 0 <= j < i ==> st[Probe(|st|, start, j)] != Runnable
    ensures match PickFrom(st, start, i)
            case Some(r) => FirstProbed(st, start, r)
            case None => forall j :: 0 <= j < |st| ==> st[Probe(|st|, start, j)] != Runnable
    decreases |st| - i
  {
    if i >= |st| || st[Probe(|st|, start, i)] == Runnable {
    } else {
      PickFromIsFirst(st, start, i + 1);
    }
  }

  /** sched_yield finds a RUNNABLE environment whenever there is one: the one of least probe index. */
  lemma PickIsComplete(st: seq<Status>, start: nat)
    requires |st| == NENV
    ensures Pick(st, start) == None <==> Runnable !in st
    ensures Pick(st, start).Some? ==> FirstProbed(st, start, Pick(st, start).value)
  {
    PickFromIsFirst(st, start, 0);
    assert Pow2(10) == NENV;
    PowerOfTwoReachesAll(10, start);
    hide Probe, PickFrom, Pow2;
    if Runnable in st {
      var e :| 0 <= e < |st| && st[e] == Runnable;
      assert e in Probes(NENV, start);
    }
  }

  /** The search loop of sched_yield, from idx on. */
  method FindRunnable(envs: array<Env>, idx0: nat) returns (r: Option<nat>)
    requires envs.Length == NENV
    ensures r == Pick(Statuses(envs[..]), idx0)
    ensures r == None <==> forall e :: 0 <= e < NENV ==> envs[e].status != Runnable
    ensures r.Some? ==> FirstProbed(Statuses(envs[..]), idx0, r.value)
  {
    ghost var st := Statuses(envs[..]);
    PickIsComplete(st, idx0);
    assert Runnable in st <==> exists e :: 0 <= e < NENV && st[e] == Runnable;
    var idx := idx0;
    for i := 0 to NENV
      invariant i == 0 ==> idx == idx0
      invariant i > 0 ==> idx == Probe(NENV, idx0, i - 1)
      invariant Pick(st, idx0) == PickFrom(st, idx0, i)
    {
      idx := (idx + i) % NENV;
      if envs[idx].status == Runnable {
        return Some(idx);
      }
    }
    return None;
  }
}
