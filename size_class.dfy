/**
 * The size-class index of the segregated allocator (hw4/multilevelBF.c) and
 * the rounding of requests to the alignment unit.
 *
 * Class i covers the payload sizes in (Lower(i), Upper(i)], where Upper
 * starts at the alignment unit and doubles from class to class; the last
 * class also catches every size the finite classes do not cover.
 */
module SizeClass {
  const ALIGNMENT: nat := 32
  const LEVELS: nat := 11
  /** The largest value of the platform's size_t. */
  const SIZE_MAX: nat := 0xFFFF_FFFF_FFFF_FFFF

  /** The scan's `upper` bound after i doublings. */
  function Upper(i: nat): (u: nat)
    ensures u >= ALIGNMENT
  {
    if i == 0 then ALIGNMENT else 2 * Upper(i - 1)
  }

  /** The scan's `lower` bound: the previous class's upper bound. */
  function Lower(i: nat): nat
  {
    if i == 0 then 0 else Upper(i - 1)
  }

  lemma {:induction false} UpperGrows(i: nat, j: nat)
    requires i < j
    ensures Upper(i) < Upper(j)
  {
    if i + 1 < j {
      UpperGrows(i, j - 1);
    }
  }

  /** The class bounds grow strictly from class to class. */
  lemma UpperIncreasing()
    ensures forall i, j :: 0 <= i < j ==> Upper(i) < Upper(j)
  {
    forall i, j | 0 <= i < j ensures Upper(i) < Upper(j) {
      UpperGrows(i, j);
    }
  }

  /** The two finite boundaries that frame the catch-all class. */
  lemma {:induction false} TopBoundaries()
    ensures Upper(LEVELS - 2) == 16384 && Upper(LEVELS - 1) == 32768
  {
    assert Upper(0) == 32 && Upper(1) == 64 && Upper(2) == 128 && Upper(3) == 256;
    assert Upper(4) == 512 && Upper(5) == 1024 && Upper(6) == 2048;
    assert Upper(7) == 4096 && Upper(8) == 8192;
  }

  /**
   * The class a size belongs to, stated independently of the scan: one of
   * the ranges (Lower(l), Upper(l)] for the finite classes, and for the
   * catch-all class every size not in (0, Upper(LEVELS - 2)].
   */
  predicate InClass(sz: nat, l: nat)
  {
    if l < LEVELS - 1 then Lower(l) < sz <= Upper(l)
    else l == LEVELS - 1 && !(0 < sz <= Upper(LEVELS - 2))
  }

  /** The classification scan of the source, started at class i. */
  function LevelFrom(sz: nat, i: nat): nat
    requires i <= LEVELS
    decreases LEVELS - i
  {
    if i == LEVELS then LEVELS - 1
    else if Lower(i) < sz <= Upper(i) then i
    else LevelFrom(sz, i + 1)
  }

  lemma {:induction false} LevelFromInClass(sz: nat, i: nat)
    requires i < LEVELS
    requires sz == 0 || Lower(i) < sz
    ensures i <= LevelFrom(sz, i) < LEVELS && InClass(sz, LevelFrom(sz, i))
    decreases LEVELS - i
  {
    if i < LEVELS - 1 && !(Lower(i) < sz <= Upper(i)) {
      LevelFromInClass(sz, i + 1);
    } else if i == LEVELS - 1 {
      assert Lower(i) == Upper(LEVELS - 2);
    }
  }

  /** Size classification: Level(sz) is the class sz belongs to. */
  function Level(sz: nat): (l: nat)
    ensures l < LEVELS
  {
    LevelFromInClass(sz, 0);
    LevelFrom(sz, 0)
  }

  /** Every size belongs to the class Level gives it. */
  lemma LevelInClass(sz: nat)
    ensures InClass(sz, Level(sz))
  {
    LevelFromInClass(sz, 0);
  }

  /** The classes do not overlap, so a size belongs to exactly one of them. */
  lemma ClassesDisjoint(sz: nat, l1: nat, l2: nat)
    requires InClass(sz, l1) && InClass(sz, l2)
    ensures l1 == l2
  {
    UpperIncreasing();
  }

  /** Level picks class l exactly when the size lies in class l. */
  lemma LevelIff(sz: nat, l: nat)
    requires l < LEVELS
    ensures Level(sz) == l <==> InClass(sz, l)
  {
    LevelInClass(sz);
    if InClass(sz, l) {
      ClassesDisjoint(sz, l, Level(sz));
    }
  }

  /** Larger positive sizes never fall in a smaller class. */
  lemma LevelMonotone(a: nat, b: nat)
    requires 0 < a <= b
    ensures Level(a) <= Level(b)
  {
    var la, lb := Level(a), Level(b);
    LevelInClass(a);
    LevelInClass(b);
    UpperIncreasing();
  }

  /**
   * The classification loop of the source (the same loop appears at every
   * call site): scans the classes from the smallest bound upward and stops
   * at the first whose range holds sz; otherwise keeps the catch-all.
   */
  method ComputeLevel(sz: nat) returns (lvl: nat)
    ensures lvl == Level(sz)
  {
    var lower, upper := 0, ALIGNMENT;
    lvl := LEVELS - 1;
    var i := 0;
    while i < LEVELS
      invariant 0 <= i <= LEVELS
      invariant lower == Lower(i) && upper == Upper(i)
      invariant Level(sz) == LevelFrom(sz, i)
    {
      if lower < sz <= upper {
        lvl := i;
        break;
      }
      lower := upper;
      upper := 2 * upper;
      i := i + 1;
    }
  }

  /**
   * The request rounded up to the alignment unit. The source clears the low
   * five bits of size + 31, which for a power-of-two unit is rounding down
   * to a multiple of it; requests are bounded so that size + 31 fits size_t.
   */
  function RoundUp(size: nat): (req: nat)
    requires size <= SIZE_MAX - (ALIGNMENT - 1)
    ensures req % ALIGNMENT == 0 && size <= req < size + ALIGNMENT
    ensures req <= SIZE_MAX
  {
    var t := size + (ALIGNMENT - 1);
    t - t % ALIGNMENT
  }

  /** No multiple of the unit between size and RoundUp(size) is smaller. */
  lemma RoundUpLeast(size: nat, m: nat)
    requires size <= SIZE_MAX - (ALIGNMENT - 1)
    requires m % ALIGNMENT == 0 && size <= m
    ensures RoundUp(size) <= m
  {
  }
}
