/** Human-readable byte counts, src/scale.rs: divide by the base (1024 or 1000)
    while the number exceeds ten units, then show either a whole count of the
    unit below or one decimal of the unit reached. The floating-point division
    and the string formatting are left out: a result records the integer it
    shows, the unit index into "KMGTPE" and the suffix. */
module Scaling {
  import opened LittleEndian

  const Units: seq<char> := "KMGTPE"

  datatype Type = Binary | Metric

  /** `Type::base`. */
  function Base(t: Type): (b: nat)
    ensures b == 1024 || b == 1000
    ensures t.Binary? <==> b == 1024
  {
    match t
    case Binary => 1024
    case Metric => 1000
  }

  /** "iB" after a binary unit (KiB), "B" after a metric one (KB). */
  function Suffix(t: Type): (s: string)
    ensures s == if t.Binary? then "iB" else "B"
  {
    match t
    case Binary => "iB"
    case Metric => "B"
  }

  datatype Level = Human | Custom(digits: u8)

  datatype Scale = Scale(ty: Type, level: Level)

  /** `Scale::default`: human-readable binary units. */
  function Default(): (sc: Scale)
    ensures sc.level == Human && Base(sc.ty) == 1024 && Suffix(sc.ty) == "iB"
  {
    Scale(Binary, Human)
  }

  /** What `scale` shows, before formatting. */
  datatype Scaled =
    | Bytes(num: nat)                                         // "{num}B"
    | Whole(num: nat, unit: nat, suffix: string)              // "{num} {UNITS[unit]}{suffix}"
    | Tenths(num: nat, base: nat, unit: nat, suffix: string)  // "{num / base:.1} {UNITS[unit]}{suffix}"
    | IndexPanic                                              // `UNITS[cnt - 1]` with cnt = 0
    | Unimplemented                                           // `todo!()`

  function Pow(b: nat, k: nat): (r: nat)
    ensures b > 0 ==> r > 0
  {
    if k == 0 then 1 else b * Pow(b, k - 1)
  }

  /** d * x is at least d for a positive x. */
  lemma MulAtLeast(d: nat, x: nat)
    requires x >= 1
    ensures d * x >= d
  {
    assert d * x == d * (x - 1) + d;
  }

  /** The quotient is the only q leaving a remainder below d. */
  lemma DivUnique(a: nat, d: nat, q: nat, r: nat)
    requires d > 0 && r < d && a == d * q + r
    ensures a / d == q
  {
    var q', r' := a / d, a % d;
    assert a == d * q' + r' && r' < d;
    if q > q' {
      assert d * q == d * q' + d * (q - q');
      MulAtLeast(d, q - q');
      assert false;
    } else if q < q' {
      assert d * q' == d * q + d * (q' - q);
      MulAtLeast(d, q' - q);
      assert false;
    }
  }

  /** Dividing twice is dividing by the product. */
  lemma DivDiv(a: nat, p: nat, b: nat)
    requires p > 0 && b > 0
    ensures a / p / b == a / (p * b)
  {
    var q, r := a / p, a % p;
    var q2, r2 := q / b, q % b;
    Compose(a, p, b, q, r, q2, r2);
    DivUnique(a, p * b, q2, p * r2 + r);
  }

  /** Two divisions with remainder compose into one by the product. */
  lemma Compose(a: nat, p: nat, b: nat, q: nat, r: nat, q2: nat, r2: nat)
    requires a == p * q + r && r < p && q == b * q2 + r2 && r2 < b
    ensures a == (p * b) * q2 + (p * r2 + r) && p * r2 + r < p * b
  {
    Distribute(p, b, q2, r2);
    MulLe(p, r2, b - 1);
    assert p * b == p * (b - 1) + p;
  }

  lemma Distribute(p: nat, b: nat, q: nat, r: nat)
    ensures p * (b * q + r) == (p * b) * q + p * r
  {
  }

  lemma MulLe(p: nat, x: nat, y: nat)
    requires x <= y
    ensures p * x <= p * y
  {
    assert p * y == p * x + p * (y - x);
  }

  /** The number left after dividing k times by the base, as the loop does. */
  function Quotient(num: nat, base: nat, k: nat): nat
    requires base > 0
  {
    if k == 0 then num else Quotient(num, base, k - 1) / base
  }

  /** Dividing k times is dividing once by the k-th power. */
  lemma {:induction false} QuotientIsDivision(num: nat, base: nat, k: nat)
    requires base > 0
    ensures Quotient(num, base, k) == num / Pow(base, k)
  {
    if k > 0 {
      QuotientIsDivision(num, base, k - 1);
      DivDiv(num, Pow(base, k - 1), base);
      assert Pow(base, k - 1) * base == Pow(base, k);
    }
  }

  lemma DivShrinks(x: nat, b: nat)
    requires b >= 1
    ensures x / b <= x
  {
    var q := x / b;
    assert x == b * q + x % b;
    if q >= 1 {
      MulAtLeast(q, b);
      assert q * b == b * q;
    }
  }

  /** Dividing more times never leaves a larger number. */
  lemma {:induction false} QuotientShrinks(num: nat, base: nat, j: nat, k: nat)
    requires base >= 1 && j <= k
    ensures Quotient(num, base, k) <= Quotient(num, base, j)
    decreases k - j
  {
    if j < k {
      QuotientShrinks(num, base, j, k - 1);
      DivShrinks(Quotient(num, base, k - 1), base);
    }
  }

  /** A u64 holds fewer than one base of the sixth power: "E" is the last unit needed. */
  lemma SixthPowerBound(num: u64, base: nat)
    requires base == 1024 || base == 1000
    ensures Quotient(num, base, 6) < base
  {
    QuotientIsDivision(num, base, 6);
    if base == 1024 {
      assert Pow(base, 6) == 0x1000_0000_0000_0000;
    } else {
      assert Pow(base, 6) == 1_000_000_000_000_000_000;
    }
  }

  /** The `Human` loop of `scale`: divide while the number exceeds ten units. */
  method Reduce(num: u64, base: nat) returns (n: nat, cnt: nat)
    requires base == 1024 || base == 1000
    // the number left is the input divided cnt times by the base
    ensures n == Quotient(num, base, cnt)
    // at most ten units are left, and no division was one too many
    ensures n <= 10 * base
    ensures cnt > 0 ==> 10 <= n && Quotient(num, base, cnt - 1) > 10 * base
    // dividing only shrinks the number, and happens only above ten units
    ensures n <= num && (cnt > 0 ==> num > 10 * base)
    // the unit indexes stay inside "KMGTPE"
    ensures cnt <= 6 && (n >= base ==> cnt <= 5)
  {
    n, cnt := num, 0;
    while n > base * 10
      invariant n == Quotient(num, base, cnt)
      invariant cnt > 0 ==> 10 <= n && Quotient(num, base, cnt - 1) > 10 * base
      invariant cnt <= 6 && (cnt == 6 ==> n < base)
      invariant n <= num && (cnt > 0 ==> num > 10 * base)
      decreases n
    {
      DivUnique(n, base, n / base, n % base);
      DivShrinks(n, base);
      n := n / base;
      cnt := cnt + 1;
      if cnt == 6 {
        SixthPowerBound(num, base);
      }
    }
  }

  /** What `scale` shows for a number of at least one unit: either a whole count,
      at least ten and below one base of the unit reached by dividing once more
      than the last unit holding more than ten bases, or one decimal of the first
      unit holding at most ten bases. The unit indexes "KMGTPE". */
  predicate Displays(t: Type, num: nat, r: Scaled)
  {
    var base := Base(t);
    match r
    case Whole(n, unit, suffix) =>
      && unit < |Units| && suffix == Suffix(t)
      && n == Quotient(num, base, unit + 1) && 10 <= n < base
      && Quotient(num, base, unit) > 10 * base
    case Tenths(n, b, unit, suffix) =>
      && unit < |Units| && suffix == Suffix(t) && b == base
      && n == Quotient(num, base, unit) && base <= n <= 10 * base
      && (unit == 0 || Quotient(num, base, unit - 1) > 10 * base)
    case _ => false
  }

  /** The number of divisions a display stands for: the first one after which the
      number is at most ten bases. */
  function Divisions(r: Scaled): nat
  {
    match r
    case Whole(_, unit, _) => unit + 1
    case Tenths(_, _, unit, _) => unit
    case _ => 0
  }

  /** A display stands for the first number of divisions after which at most
      ten bases are left; it is a whole count exactly when less than one base is. */
  lemma DisplayDivisions(t: Type, num: nat, r: Scaled)
    requires Displays(t, num, r)
    ensures Quotient(num, Base(t), Divisions(r)) <= 10 * Base(t)
    ensures Divisions(r) > 0 ==> Quotient(num, Base(t), Divisions(r) - 1) > 10 * Base(t)
    ensures r.Whole? <==> Quotient(num, Base(t), Divisions(r)) < Base(t)
  {
  }

  /** Two counts of divisions that both stop at the first quotient of at most ten bases agree. */
  lemma FirstDivisionsUnique(num: nat, base: nat, d1: nat, d2: nat)
    requires base >= 1
    requires Quotient(num, base, d1) <= 10 * base && (d1 > 0 ==> Quotient(num, base, d1 - 1) > 10 * base)
    requires Quotient(num, base, d2) <= 10 * base && (d2 > 0 ==> Quotient(num, base, d2 - 1) > 10 * base)
    ensures d1 == d2
  {
    if d1 < d2 {
      QuotientShrinks(num, base, d1, d2 - 1);
    } else if d2 < d1 {
      QuotientShrinks(num, base, d2, d1 - 1);
    }
  }

  /** A number has at most one display: the unit and the number shown are fixed by it. */
  lemma DisplayUnique(t: Type, num: nat, r1: Scaled, r2: Scaled)
    requires Displays(t, num, r1) && Displays(t, num, r2)
    ensures r1 == r2
  {
    DisplayDivisions(t, num, r1);
    DisplayDivisions(t, num, r2);
    FirstDivisionsUnique(num, Base(t), Divisions(r1), Divisions(r2));
    if r1.Whole? {
      assert r2.Whole? && r1.unit == r2.unit;
    } else {
      assert r1.Tenths? && r2.Tenths? && r1.unit == r2.unit;
    }
  }

  /** `Scale::scale` as written: below one unit the loop never runs and
      `UNITS[cnt - 1]` is indexed with cnt = 0. */
  method ScaleAsWritten(sc: Scale, num: u64) returns (r: Scaled)
    ensures sc.level == Custom(0) ==> r == Bytes(num)
    ensures sc.level.Custom? && sc.level.digits != 0 ==> r == Unimplemented
    // every human-scaled number below one unit panics
    ensures sc.level == Human && num < Base(sc.ty) ==> r == IndexPanic
    // from one unit on, the number is shown scaled, the same display as the corrected version
    ensures sc.level == Human && num >= Base(sc.ty) ==> Displays(sc.ty, num, r)
  {
    if sc.level == Custom(0) {
      return Bytes(num);
    }
    var base := Base(sc.ty);
    var suffix := Suffix(sc.ty);
    if sc.level == Human {
      var n, cnt := Reduce(num, base);
      if n < base {
        if cnt == 0 {
          return IndexPanic;
        }
        return Whole(n, cnt - 1, suffix);
      } else {
        return Tenths(n, base, cnt, suffix);
      }
    }
    return Unimplemented;
  }

  /** `Scale::scale` with a number below one unit shown as a plain byte count,
      as `Custom(0)` shows every number. */
  method ScaleNumber(sc: Scale, num: u64) returns (r: Scaled)
    ensures sc.level == Custom(0) ==> r == Bytes(num)
    ensures sc.level.Custom? && sc.level.digits != 0 ==> r == Unimplemented
    ensures sc.level == Human && num < Base(sc.ty) ==> r == Bytes(num)
    // from one unit on, the number is shown scaled
    ensures sc.level == Human && num >= Base(sc.ty) ==> Displays(sc.ty, num, r)
  {
    if sc.level == Custom(0) {
      return Bytes(num);
    }
    var base := Base(sc.ty);
    var suffix := Suffix(sc.ty);
    if sc.level == Human {
      var n, cnt := Reduce(num, base);
      if n < base {
        if cnt == 0 {
          return Bytes(num);
        }
        return Whole(n, cnt - 1, suffix);
      } else {
        return Tenths(n, base, cnt, suffix);
      }
    }
    return Unimplemented;
  }
}
