/** Page-sized memory: ranges, the pages they cover, and how a kernel call can end. */
module Pages {

  const PAGE_SIZE: nat := 4096
  const TWO_32: nat := 0x1_0000_0000
  const TWO_64: nat := 0x1_0000_0000_0000_0000

  datatype Range = Range(base: nat, length: nat)

  datatype Option<+T> = None | Some(value: T)

  /** How a call into the kernel ends: with a value, at a failed assertion, or never. */
  datatype Outcome<+T> = Done(value: T) | Halted | Hung
  {
    function ToOption(): Option<T> {
      match this
      case Done(v) => Some(v)
      case _ => None
    }

    /** The same end for a caller. */
    function Stop<U>(): Outcome<U>
      requires !Done?
    {
      if Halted? then Halted else Hung
    }
  }

  function AlignDown(a: nat): nat {
    a / PAGE_SIZE * PAGE_SIZE
  }

  function AlignUp(a: nat): nat {
    (a + PAGE_SIZE - 1) / PAGE_SIZE * PAGE_SIZE
  }

  ghost predicate Within(lo: nat, n: nat, p: nat) {
    lo <= p < lo + n
  }

  ghost function Interval(lo: nat, n: nat): set<nat> {
    set p: nat | lo <= p < lo + n && Within(lo, n, p)
  }

  lemma {:induction false} IntervalSize(lo: nat, n: nat)
    ensures |Interval(lo, n)| == n
  {
    if n > 0 {
      IntervalSize(lo, n - 1);
      assert Interval(lo, n) == Interval(lo, n - 1) + {lo + n - 1};
    }
  }

  /** The pages a loop over length / PAGE_SIZE pages from base visits. */
  ghost function PagesOf(r: Range): set<nat> {
    Interval(r.base / PAGE_SIZE, r.length / PAGE_SIZE)
  }

  type size_t = x: int | 0 <= x < TWO_64

  /** The value of a size_t sum or difference. */
  function Wrap(x: int): size_t
    requires 0 - TWO_64 <= x < 2 * TWO_64
  {
    if x < 0 then x + TWO_64 else if x >= TWO_64 then x - TWO_64 else x
  }

  lemma RemoveSize(s: set<nat>, t: set<nat>)
    requires t <= s
    ensures |s - t| == |s| - |t|
  {
  }

  lemma AddSize(s: set<nat>, t: set<nat>)
    requires s !! t
    ensures |s + t| == |s| + |t|
  {
  }
}
