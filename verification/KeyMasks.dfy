/** Modifier masks (KeyModifierMask in KeyTypes.h).

    The program keeps a mask in a 32-bit word, one bit per modifier.  The model
    keeps the set of bit positions that are one, so that `&`, `|`, `^` and
    `& ~` read as set operations.  The lemmas of this module tie the places
    where the program treats a mask as a number (comparing two masks, shifting
    through one to count its bits) to that set.
 */
module KeyMasks {

  type Mask = set<nat>

  /** kKeyModifierNumBits: the positions the modifier loops visit. */
  const NUM_BITS: nat := 16

  /** The width of KeyModifierMask. */
  const WORD_BITS: nat := 32

  /** ~0u */
  const ALL: Mask := set b: nat | b < WORD_BITS

  const SHIFT: nat := 0
  const CONTROL: nat := 1
  const ALT: nat := 2
  const META: nat := 3
  const SUPER: nat := 4
  const ALT_GR: nat := 5
  const CAPS_LOCK: nat := 12
  const NUM_LOCK: nat := 13
  const SCROLL_LOCK: nat := 14

  function Xor(x: Mask, y: Mask): Mask {
    (x - y) + (y - x)
  }

  /** Some position above `b` is set. */
  predicate AnyAbove(m: Mask, b: nat) {
    exists c | c in m :: c > b
  }

  /** The order of masks as numbers: the highest position on which they differ decides. */
  predicate Less(x: Mask, y: Mask) {
    exists i | i in y :: i !in x && SameAbove(x, y, i)
  }

  predicate SameAbove(x: Mask, y: Mask, i: nat) {
    forall j | j in x + y :: j > i ==> (j in x <==> j in y)
  }

  /** One more than the highest of the first `n` positions that is set, 0 if none is. */
  function Ceiling(m: Mask, n: nat := NUM_BITS): (c: nat)
    ensures c <= n
    ensures c > 0 ==> c - 1 in m
    ensures forall b :: b in m && b < n ==> b < c
  {
    if n == 0 then 0 else if n - 1 in m then n else Ceiling(m, n - 1)
  }

  // ---- masks as words ----

  function Pow2(n: nat): (p: nat)
    ensures p > 0
  {
    if n == 0 then 1 else 2 * Pow2(n - 1)
  }

  function Up(m: Mask): Mask {
    set b | b in m :: b + 1
  }

  /** The positions of the one bits of a word, peeling the lowest bit off at each step. */
  function BitsOf(w: nat): Mask {
    if w == 0 then {} else (if w % 2 == 1 then {0} else {}) + Up(BitsOf(w / 2))
  }

  lemma {:induction false} BitsOfHalf(w: nat, b: nat)
    ensures b > 0 ==> (b in BitsOf(w) <==> b - 1 in BitsOf(w / 2))
    ensures 0 in BitsOf(w) <==> w % 2 == 1
  {
    if w != 0 && b > 0 {
      assert b in BitsOf(w) <==> b in Up(BitsOf(w / 2));
      if b - 1 in BitsOf(w / 2) {
        assert (b - 1) + 1 in Up(BitsOf(w / 2));
      }
    }
  }

  /** A mask and the same mask without its lowest position, moved down by one. */
  ghost predicate Half(a: Mask, a': Mask) {
    forall b: nat | b > 0 :: b in a <==> b - 1 in a'
  }

  lemma BitsOfIsHalf(w: nat)
    ensures Half(BitsOf(w), BitsOf(w / 2)) && (0 in BitsOf(w) <==> w % 2 == 1)
  {
    BitsOfHalf(w, 0);
    forall b: nat | b > 0 ensures b in BitsOf(w) <==> b - 1 in BitsOf(w / 2) {
      BitsOfHalf(w, b);
    }
  }

  lemma UpFromHalf(a: Mask, a': Mask, i: nat)
    requires Half(a, a')
    ensures i + 1 in a <==> i in a'
  {
    assert (i + 1) - 1 == i;
  }

  /** The order of two masks, from the order of their halves. */
  lemma LessOfHalves(a: Mask, b: Mask, a': Mask, b': Mask)
    requires Half(a, a') && Half(b, b')
    requires Less(a', b') || (a' == b' && 0 in b && 0 !in a)
    ensures Less(a, b)
  {
    if Less(a', b') {
      var i :| i in b' && i !in a' && SameAbove(a', b', i);
      UpFromHalf(a, a', i);
      UpFromHalf(b, b', i);
      forall j | j in a + b && j > i + 1 ensures j in a <==> j in b {
        assert j - 1 in a' + b' ==> (j - 1 in a' <==> j - 1 in b');
      }
      assert i + 1 in b && i + 1 !in a && SameAbove(a, b, i + 1);
    } else {
      assert 0 in b && 0 !in a && SameAbove(a, b, 0);
    }
  }

  lemma HalvesOfLess(a: Mask, b: Mask, a': Mask, b': Mask)
    requires Half(a, a') && Half(b, b') && Less(a, b)
    ensures Less(a', b') || (a' == b' && 0 in b && 0 !in a)
  {
    var i :| i in b && i !in a && SameAbove(a, b, i);
    forall j: nat | j + 1 > i ensures j in a' <==> j in b' {
      UpFromHalf(a, a', j);
      UpFromHalf(b, b', j);
      assert j + 1 in a + b ==> (j + 1 in a <==> j + 1 in b);
    }
    if i > 0 {
      assert i - 1 in b' && i - 1 !in a' && SameAbove(a', b', i - 1);
    } else {
      assert forall j: nat :: j in a' <==> j in b';
    }
  }

  lemma LessHalves(x: nat, y: nat)
    ensures Less(BitsOf(x), BitsOf(y)) <==>
            Less(BitsOf(x / 2), BitsOf(y / 2)) ||
            (BitsOf(x / 2) == BitsOf(y / 2) && x % 2 < y % 2)
  {
    var a, b, a', b' := BitsOf(x), BitsOf(y), BitsOf(x / 2), BitsOf(y / 2);
    BitsOfIsHalf(x);
    BitsOfIsHalf(y);
    if Less(a, b) {
      HalvesOfLess(a, b, a', b');
    }
    if Less(a', b') || (a' == b' && 0 in b && 0 !in a) {
      LessOfHalves(a, b, a', b');
    }
  }

  lemma {:induction false} WordsInjective(x: nat, y: nat)
    requires BitsOf(x) == BitsOf(y)
    ensures x == y
    decreases x + y
  {
    if x + y > 0 {
      BitsOfHalf(x, 0);
      BitsOfHalf(y, 0);
      forall i: nat ensures i in BitsOf(x / 2) <==> i in BitsOf(y / 2) {
        BitsOfHalf(x, i + 1);
        BitsOfHalf(y, i + 1);
      }
      WordsInjective(x / 2, y / 2);
    }
  }

  /** Comparing two words is comparing their sets. */
  lemma {:induction false} WordOrder(x: nat, y: nat)
    ensures x < y <==> Less(BitsOf(x), BitsOf(y))
    decreases x + y
  {
    if x + y > 0 {
      var p, q := x / 2, y / 2;
      LessHalves(x, y);
      WordOrder(p, q);
      if BitsOf(p) == BitsOf(q) {
        WordsInjective(p, q);
      }
      HalfOrder(x, y, p, q);
    }
  }

  lemma HalfOrder(x: nat, y: nat, p: nat, q: nat)
    requires p == x / 2 && q == y / 2
    ensures x < y <==> p < q || (p == q && x % 2 < y % 2)
  {}

  lemma {:induction false} SingleBitWord(b: nat)
    ensures BitsOf(Pow2(b)) == {b}
  {
    if b > 0 {
      SingleBitWord(b - 1);
      assert Pow2(b) / 2 == Pow2(b - 1) && Pow2(b) % 2 == 0;
      assert Up({b - 1}) == {b};
    }
  }

  /** `sensitive > mask` with `mask` one bit that `sensitive` lacks: some higher bit is set. */
  lemma WordAbove(s: nat, b: nat)
    requires b !in BitsOf(s)
    ensures s > Pow2(b) <==> AnyAbove(BitsOf(s), b)
  {
    WordOrder(Pow2(b), s);
    SingleBitWord(b);
    var m := BitsOf(s);
    if AnyAbove(m, b) {
      var top := Highest(m);
      assert top !in {b} && SameAbove({b}, m, top);
    }
  }

  lemma {:induction false} Highest(m: Mask) returns (top: nat)
    requires m != {}
    ensures top in m && forall b :: b in m ==> b <= top
  {
    var b :| b in m;
    top := b;
    if m - {b} != {} {
      var other := Highest(m - {b});
      top := if other > b then other else b;
    }
    assert m == (m - {b}) + {b};
  }

  lemma {:induction false} UpSize(m: Mask)
    ensures |Up(m)| == |m|
    decreases |m|
  {
    if m != {} {
      var b :| b in m;
      UpSize(m - {b});
      assert m == (m - {b}) + {b};
      forall c | c in Up(m) ensures c in Up(m - {b}) + {b + 1} {
        assert c - 1 in m;
      }
      assert Up(m) == Up(m - {b}) + {b + 1};
      assert b + 1 !in Up(m - {b});
    }
  }

  /** getNumModifiers: the shifting loop counts the positions in the set. */
  method NumModifiers(mask: nat) returns (n: nat)
    ensures n == |BitsOf(mask)|
  {
    n := 0;
    var state := mask;
    while state != 0
      invariant n + |BitsOf(state)| == |BitsOf(mask)|
    {
      var rest := Up(BitsOf(state / 2));
      UpSize(BitsOf(state / 2));
      if state % 2 != 0 {
        assert BitsOf(state) == {0} + rest && 0 !in rest;
        n := n + 1;
      } else {
        assert BitsOf(state) == rest;
      }
      state := state / 2;
    }
  }
}
