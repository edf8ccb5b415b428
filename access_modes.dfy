/**
  The six access modes of a SYCL accessor and the two rules the scheduler's
  graph builder applies to them: whether an existing allocation's mode
  serves a required one, and the single mode that serves two requirements.
*/
module AccessModes {
  /** access::mode */
  datatype Mode = Read | Write | ReadWrite | DiscardWrite | DiscardReadWrite | Atomic

  /**
    isAccessModeAllowed, as a release build runs it: the assertion that
    `write` never is the current mode is compiled out.
  */
  predicate IsAccessModeAllowed(required: Mode, current: Mode) {
    match current
    case Read => required == current
    case Write => required == current || required == DiscardWrite
    case ReadWrite | Atomic | DiscardWrite | DiscardReadWrite => true
  }

  /** combineAccessModes */
  function CombineAccessModes(a: Mode, b: Mode): Mode {
    if a == b then a
    else if a == DiscardWrite && (b == DiscardReadWrite || b == Write) then b
    else if b == DiscardWrite && (a == DiscardReadWrite || a == Write) then a
    else ReadWrite
  }

  /**
    The order "b serves at least what a serves" that the combination is
    the least upper bound of: discard_write is below write and
    discard_read_write, and read_write is above everything.
  */
  predicate Below(a: Mode, b: Mode) {
    a == b || b == ReadWrite || (a == DiscardWrite && (b == Write || b == DiscardReadWrite))
  }

  /** Under the current mode read only read is allowed. */
  lemma ReadAllowsOnlyRead(required: Mode)
    ensures IsAccessModeAllowed(required, Read) <==> required == Read
  {
  }

  /** Under read_write, atomic, discard_write and discard_read_write everything is allowed. */
  lemma WideModesAllowEverything(required: Mode, current: Mode)
    requires current in {ReadWrite, Atomic, DiscardWrite, DiscardReadWrite}
    ensures IsAccessModeAllowed(required, current)
  {
  }

  /** A mode that serves at least another one allows it. */
  lemma BelowAllowed(a: Mode, b: Mode)
    requires Below(a, b)
    ensures IsAccessModeAllowed(a, b)
  {
  }

  lemma BelowTransitive(a: Mode, b: Mode, c: Mode)
    requires Below(a, b) && Below(b, c)
    ensures Below(a, c)
  {
  }

  lemma CombineIdempotent(a: Mode)
    ensures CombineAccessModes(a, a) == a
  {
  }

  lemma CombineCommutative(a: Mode, b: Mode)
    ensures CombineAccessModes(a, b) == CombineAccessModes(b, a)
  {
  }

  /**
    Combining gives the least mode that serves both: it is above each of
    them and below every mode above both.
  */
  lemma CombineIsLeastUpperBound(a: Mode, b: Mode, c: Mode)
    ensures Below(a, CombineAccessModes(a, b)) && Below(b, CombineAccessModes(a, b))
    ensures Below(a, c) && Below(b, c) ==> Below(CombineAccessModes(a, b), c)
  {
  }

  /** discard_write combined with discard_read_write or write yields the other; other distinct pairs read_write. */
  lemma CombineDistinct(a: Mode, b: Mode)
    requires a != b
    ensures CombineAccessModes(a, b) ==
      if a == DiscardWrite && b in {DiscardReadWrite, Write} then b
      else if b == DiscardWrite && a in {DiscardReadWrite, Write} then a
      else ReadWrite
  {
  }

  lemma {:induction false} CombineAssociative(a: Mode, b: Mode, c: Mode)
    ensures CombineAccessModes(CombineAccessModes(a, b), c) == CombineAccessModes(a, CombineAccessModes(b, c))
  {
    var l := CombineAccessModes(CombineAccessModes(a, b), c);
    var r := CombineAccessModes(a, CombineAccessModes(b, c));
    CombineIsLeastUpperBound(a, b, r);
    CombineIsLeastUpperBound(b, c, l);
    CombineIsLeastUpperBound(CombineAccessModes(a, b), c, r);
    CombineIsLeastUpperBound(a, CombineAccessModes(b, c), l);
    BelowTransitive(a, CombineAccessModes(a, b), l);
    BelowTransitive(b, CombineAccessModes(a, b), l);
    BelowTransitive(b, CombineAccessModes(b, c), r);
    BelowTransitive(c, CombineAccessModes(b, c), r);
    BelowAntisymmetric(l, r);
  }

  lemma BelowAntisymmetric(a: Mode, b: Mode)
    requires Below(a, b) && Below(b, a)
    ensures a == b
  {
  }

  /** The modes `ms` combined from left to right, as a map entry accumulates them. */
  function CombineAll(ms: seq<Mode>): Mode
    requires ms != []
    decreases |ms|
  {
    if |ms| == 1 then ms[0] else CombineAccessModes(CombineAll(ms[..|ms| - 1]), ms[|ms| - 1])
  }

  /** The combination of a list of modes serves every one of them. */
  lemma {:induction false} CombineAllCovers(ms: seq<Mode>)
    requires ms != []
    ensures forall m :: m in ms ==> Below(m, CombineAll(ms))
    decreases |ms|
  {
    if |ms| > 1 {
      var init, last := ms[..|ms| - 1], ms[|ms| - 1];
      var r := CombineAll(ms);
      CombineAllCovers(init);
      CombineIsLeastUpperBound(CombineAll(init), last, r);
      forall m | m in ms ensures Below(m, r) {
        if m != last {
          assert m in init;
          BelowTransitive(m, CombineAll(init), r);
        }
      }
    }
  }

  /** ... and it is below every mode that serves all of them. */
  lemma {:induction false} CombineAllLeast(ms: seq<Mode>, c: Mode)
    requires ms != [] && forall m :: m in ms ==> Below(m, c)
    ensures Below(CombineAll(ms), c)
    decreases |ms|
  {
    if |ms| > 1 {
      var init := ms[..|ms| - 1];
      forall m | m in init ensures Below(m, c) {
        assert m in ms;
      }
      CombineAllLeast(init, c);
      CombineIsLeastUpperBound(CombineAll(init), ms[|ms| - 1], c);
    }
  }

  /** Order does not matter: two lists holding the same modes combine to the same mode. */
  lemma CombineAllSameModes(ms: seq<Mode>, ns: seq<Mode>)
    requires ms != [] && ns != [] && (forall m :: m in ms <==> m in ns)
    ensures CombineAll(ms) == CombineAll(ns)
  {
    CombineAllCovers(ms);
    CombineAllCovers(ns);
    CombineAllLeast(ms, CombineAll(ns));
    CombineAllLeast(ns, CombineAll(ms));
    BelowAntisymmetric(CombineAll(ms), CombineAll(ns));
  }
}
