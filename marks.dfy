/**
  Traversal marks. A `DependencySystem` keeps a pass counter in 1..255 (0 before the first
  pass); every traversal draws a fresh mark that packs the counter into the bits above the
  low byte and the visitor's order into the low byte.
 */
module Marks {

  /** Visitor orders of the three phases. */
  const SATISFACTION := 0
  const SELECTION := 1
  const RESOLUTION := 2

  /** The values the counter field may hold: 0 initially, 1..255 once a mark was drawn. */
  predicate ValidCounter(c: int) {
    0 <= c <= 255
  }

  /**
    `getVisitorOrder`: the low byte of a mark, `mark & 0xFF`. For a 32-bit two's-complement
    int this is the Euclidean remainder of the mark by 256.
   */
  function VisitorOrder(mark: int): (o: int)
    ensures 0 <= o < 256
    ensures mark >= 0 ==> o <= mark
  {
    mark % 256
  }

  /** The counter update of `getNewMark`: `mark % 0xFF + 1` (the counter is never negative). */
  function NextCounter(c: int): (next: int)
    requires ValidCounter(c)
    ensures 1 <= next <= 255
    ensures c < 255 ==> next == c + 1
    ensures c == 255 ==> next == 1
  {
    c % 255 + 1
  }

  /**
    The mark `getNewMark` returns for a counter value and an order:
    `(counter << 8) + (order & 0xFF)`. With the counter at most 255 the shift cannot
    overflow a 32-bit int.
   */
  function MarkOf(counter: int, order: int): (m: int)
    requires 1 <= counter <= 255
    ensures 256 <= m < 65536
  {
    counter * 256 + order % 256
  }

  /** The counter after `k` calls of `getNewMark`, starting from `c`. */
  function Iterate(c: int, k: nat): (r: int)
    requires ValidCounter(c)
    ensures ValidCounter(r)
    ensures k > 0 ==> r >= 1
    decreases k
  {
    if k == 0 then c else Iterate(NextCounter(c), k - 1)
  }

  /** The order packed into a mark is recovered by `getVisitorOrder`. */
  lemma VisitorOrderOfMark(counter: int, order: int)
    requires 1 <= counter <= 255
    requires 0 <= order <= 255
    ensures VisitorOrder(MarkOf(counter, order)) == order
  {
    assert MarkOf(counter, order) == counter * 256 + order;
  }

  /** A mark determines both the pass counter and the order's low byte. */
  lemma MarkDeterminesPassAndOrder(c1: int, o1: int, c2: int, o2: int)
    requires 1 <= c1 <= 255 && 1 <= c2 <= 255
    requires MarkOf(c1, o1) == MarkOf(c2, o2)
    ensures c1 == c2 && o1 % 256 == o2 % 256
  {
    assert 0 <= o1 % 256 < 256 && 0 <= o2 % 256 < 256;
  }

  /** After k >= 1 draws the counter is `(c + k - 1) mod 255 + 1`: it cycles with period 255. */
  lemma {:induction false} IterateClosedForm(c: int, k: nat)
    requires ValidCounter(c) && k >= 1
    ensures Iterate(c, k) == (c + k - 1) % 255 + 1
    decreases k
  {
    if k == 1 {
      assert Iterate(c, 1) == Iterate(NextCounter(c), 0);
    } else {
      var next := NextCounter(c);
      IterateClosedForm(next, k - 1);
      assert Iterate(c, k) == (next + k - 2) % 255 + 1;
      if c == 255 {
        assert next + k - 2 == k - 1;
        ShiftByPeriod(k - 1);
      } else {
        assert next + k - 2 == c + k - 1;
      }
    }
  }

  lemma ShiftByPeriod(a: int)
    requires a >= 0
    ensures (a + 255) % 255 == a % 255
  {
    var q := a / 255;
    assert a == 255 * q + a % 255;
    assert a + 255 == 255 * (q + 1) + a % 255;
  }

  lemma RemaindersDiffer(a: int, b: int)
    requires 0 <= a < b < a + 255
    ensures a % 255 != b % 255
  {
    var qa, qb := a / 255, b / 255;
    assert a == 255 * qa + a % 255;
    assert b == 255 * qb + b % 255;
    assert qa <= qb <= qa + 1;
  }

  /**
    Two draws fewer than 255 draws apart yield different marks for the same order: a mark
    cannot be mistaken for one from a recent pass.
   */
  lemma MarksDistinctWithinCycle(c: int, j: nat, k: nat, order: int)
    requires ValidCounter(c)
    requires 1 <= j < k < j + 255
    ensures MarkOf(Iterate(c, j), order) != MarkOf(Iterate(c, k), order)
  {
    IterateClosedForm(c, j);
    IterateClosedForm(c, k);
    RemaindersDiffer(c + j - 1, c + k - 1);
    var a, b := Iterate(c, j), Iterate(c, k);
    assert a != b;
    if MarkOf(a, order) == MarkOf(b, order) {
      MarkDeterminesPassAndOrder(a, order, b, order);
    }
  }
}
