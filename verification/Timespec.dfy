/** Time arithmetic of include/starpu_profiling.h, in place and with aliasing. */
module Timespec {

  const NS_PER_S: int := 1_000_000_000

  datatype Stamp = Stamp(sec: int, nsec: int)

  function Nanos(t: Stamp): (n: int) {
    t.sec * NS_PER_S + t.nsec
  }

  predicate Normal(t: Stamp) {
    0 <= t.nsec < NS_PER_S
  }

  lemma NormalUnique(a: Stamp, b: Stamp)
    requires Normal(a) && Normal(b) && Nanos(a) == Nanos(b)
    ensures a == b
  {
  }

  /** The one normal stamp with so many nanoseconds. */
  function FromNanos(n: int): (t: Stamp)
    ensures Normal(t) && Nanos(t) == n
  {
    Stamp(n / NS_PER_S, n % NS_PER_S)
  }

  /** `struct timespec`. */
  class Cell {
    var sec: int
    var nsec: int

    ghost function Value(): (t: Stamp)
      reads this
    {
      Stamp(sec, nsec)
    }

    constructor ()
      ensures Value() == Stamp(0, 0)
    {
      sec, nsec := 0, 0;
    }

    method Clear()
      modifies this
      ensures Value() == FromNanos(0)
    {
      sec := 0;
      nsec := 0;
    }
  }

  /** result = a + b; the result may be one of the operands, or both. */
  method Add(a: Cell, b: Cell, result: Cell)
    requires Normal(a.Value()) && Normal(b.Value())
    modifies result
    ensures result.Value() == FromNanos(old(Nanos(a.Value()) + Nanos(b.Value())))
  {
    ghost var n := Nanos(a.Value()) + Nanos(b.Value());
    result.sec := a.sec + b.sec;
    result.nsec := a.nsec + b.nsec;
    if result.nsec >= NS_PER_S {
      result.sec := result.sec + 1;
      result.nsec := result.nsec - NS_PER_S;
    }
    NormalUnique(result.Value(), FromNanos(n));
  }

  method Accumulate(result: Cell, a: Cell)
    requires Normal(result.Value()) && Normal(a.Value())
    modifies result
    ensures result.Value() == FromNanos(old(Nanos(result.Value()) + Nanos(a.Value())))
  {
    ghost var n := Nanos(result.Value()) + Nanos(a.Value());
    result.sec := result.sec + a.sec;
    result.nsec := result.nsec + a.nsec;
    if result.nsec >= NS_PER_S {
      result.sec := result.sec + 1;
      result.nsec := result.nsec - NS_PER_S;
    }
    NormalUnique(result.Value(), FromNanos(n));
  }

  /** result = a - b, again with any aliasing; a negative difference has negative seconds. */
  method Sub(a: Cell, b: Cell, result: Cell)
    requires Normal(a.Value()) && Normal(b.Value())
    modifies result
    ensures result.Value() == FromNanos(old(Nanos(a.Value()) - Nanos(b.Value())))
  {
    ghost var n := Nanos(a.Value()) - Nanos(b.Value());
    result.sec := a.sec - b.sec;
    result.nsec := a.nsec - b.nsec;
    if result.nsec < 0 {
      result.sec := result.sec - 1;
      result.nsec := result.nsec + NS_PER_S;
    }
    NormalUnique(result.Value(), FromNanos(n));
  }

  /** Accumulating the differences of consecutive stamps telescopes, exactly and for any stamps, even decreasing ones. */
  method TotalElapsed(stamps: seq<Cell>, total: Cell)
    requires |stamps| > 0 && total !in stamps
    requires forall i {:trigger stamps[i]} :: 0 <= i < |stamps| ==> Normal(stamps[i].Value())
    modifies total
    ensures total.Value() == FromNanos(Nanos(stamps[|stamps| - 1].Value()) - Nanos(stamps[0].Value()))
  {
    total.Clear();
    var span := new Cell();
    for i := 1 to |stamps|
      invariant total !in stamps && span !in stamps && span != total && fresh(span)
      invariant forall j {:trigger stamps[j]} :: 0 <= j < |stamps| ==> Normal(stamps[j].Value())
      invariant forall j {:trigger stamps[j]} :: 0 <= j < |stamps| ==> stamps[j].Value() == old(stamps[j].Value())
      invariant total.Value() == FromNanos(Nanos(stamps[i - 1].Value()) - Nanos(stamps[0].Value()))
    {
      assert Normal(stamps[i].Value()) && Normal(stamps[i - 1].Value());
      Sub(stamps[i], stamps[i - 1], span);
      Accumulate(total, span);
    }
  }

  // ---------------------------------------------------------------- comparison

  datatype Comparison = Lt | Le | Gt | Ge | Eq | Ne

  predicate Holds(c: Comparison, x: int, y: int) {
    match c
    case Lt => x < y
    case Le => x <= y
    case Gt => x > y
    case Ge => x >= y
    case Eq => x == y
    case Ne => x != y
  }

  predicate Cmp(a: Stamp, b: Stamp, c: Comparison) {
    if a.sec == b.sec then Holds(c, a.nsec, b.nsec) else Holds(c, a.sec, b.sec)
  }

  /** The macro agrees with the order of nanoseconds for every comparison operator. */
  lemma CmpIsNanosecondOrder(a: Stamp, b: Stamp, c: Comparison)
    requires Normal(a) && Normal(b)
    ensures Cmp(a, b, c) <==> Holds(c, Nanos(a), Nanos(b))
  {
    if a.sec < b.sec {
      assert Nanos(a) < Nanos(b);
    } else if a.sec > b.sec {
      assert Nanos(a) > Nanos(b);
    }
  }
}
