/** A 32-bit event word as the set of its flags: the bit operations of rt-thread/src/ipc.c are
    operations on sets. */
module EventBits {
  import opened EventModel

  type Word = bv32

  predicate IsBit(b: Word) { b != 0 && b & (b - 1) == 0 }

  predicate On(x: Word, b: Word) { IsBit(b) && x & b != 0 }

  ghost function FlagsOf(x: Word): Flags { iset b: Word | On(x, b) }

  lemma Whole(x: Word, b: Word)
    requires IsBit(b)
    ensures x & b == 0 || x & b == b
  {
  }

  lemma BitAnd(x: Word, y: Word, b: Word)
    requires b != 0 && (x & b == 0 || x & b == b) && (y & b == 0 || y & b == b)
    ensures (x & y) & b != 0 <==> x & b != 0 && y & b != 0
  {
  }

  lemma BitMinus(x: Word, y: Word, b: Word)
    requires b != 0 && (x & b == 0 || x & b == b) && (y & b == 0 || y & b == b)
    ensures (x & !y) & b != 0 <==> x & b != 0 && y & b == 0
  {
  }

  lemma OrAdds(x: Word, y: Word, b: Word)
    requires x & b != 0
    ensures (x | y) & b != 0
    ensures (y | x) & b != 0
  {
  }

  lemma OrNoMore(x: Word, y: Word, b: Word)
    requires x & b == 0 && y & b == 0
    ensures (x | y) & b == 0
  {
  }

  lemma BitOr(x: Word, y: Word, b: Word)
    ensures (x | y) & b != 0 <==> x & b != 0 || y & b != 0
  {
    if x & b == 0 {
      if y & b == 0 {
        OrNoMore(x, y, b);
      } else {
        OrAdds(y, x, b);
      }
    } else {
      OrAdds(x, y, b);
    }
  }

  predicate Both(u: Word, x: Word, y: Word, b: Word) { IsBit(b) ==> (u & b != 0 <==> x & b != 0 && y & b != 0) }

  lemma Meet(u: Word, x: Word, y: Word)
    requires forall b :: Both(u, x, y, b)
    ensures FlagsOf(u) == FlagsOf(x) * FlagsOf(y)
  {
    forall b: Word ensures b in FlagsOf(u) <==> b in FlagsOf(x) && b in FlagsOf(y) {
      assert Both(u, x, y, b);
    }
  }

  lemma AndAt(u: Word, x: Word, y: Word, b: Word)
    requires u == x & y
    ensures Both(u, x, y, b)
  {
    if IsBit(b) {
      Whole(x, b);
      Whole(y, b);
      BitAnd(x, y, b);
    }
  }

  /** `&` is the intersection of the flags, `& ~` the difference and `|` the union. */
  lemma And(x: Word, y: Word)
    ensures FlagsOf(x & y) == FlagsOf(x) * FlagsOf(y)
  {
    var u := x & y;
    forall b ensures Both(u, x, y, b) {
      AndAt(u, x, y, b);
    }
    Meet(u, x, y);
  }

  predicate First(u: Word, x: Word, y: Word, b: Word) { IsBit(b) ==> (u & b != 0 <==> x & b != 0 && y & b == 0) }

  lemma Difference(u: Word, x: Word, y: Word)
    requires forall b :: First(u, x, y, b)
    ensures FlagsOf(u) == FlagsOf(x) - FlagsOf(y)
  {
    forall b: Word ensures b in FlagsOf(u) <==> b in FlagsOf(x) && b !in FlagsOf(y) {
      assert First(u, x, y, b);
    }
  }

  lemma MinusAt(u: Word, x: Word, y: Word, b: Word)
    requires u == x & !y
    ensures First(u, x, y, b)
  {
    if IsBit(b) {
      Whole(x, b);
      Whole(y, b);
      BitMinus(x, y, b);
    }
  }

  lemma Minus(x: Word, y: Word)
    ensures FlagsOf(x & !y) == FlagsOf(x) - FlagsOf(y)
  {
    var u := x & !y;
    forall b ensures First(u, x, y, b) {
      MinusAt(u, x, y, b);
    }
    Difference(u, x, y);
  }

  predicate Either(u: Word, x: Word, y: Word, b: Word) { IsBit(b) ==> (u & b != 0 <==> x & b != 0 || y & b != 0) }

  lemma Union(u: Word, x: Word, y: Word)
    requires forall b :: Either(u, x, y, b)
    ensures FlagsOf(u) == FlagsOf(x) + FlagsOf(y)
  {
    forall b: Word ensures b in FlagsOf(u) <==> b in FlagsOf(x) || b in FlagsOf(y) {
      assert Either(u, x, y, b);
    }
  }

  lemma OrAt(u: Word, x: Word, y: Word, b: Word)
    requires u == x | y
    ensures Either(u, x, y, b)
  {
    BitOr(x, y, b);
  }

  lemma Or(x: Word, y: Word)
    ensures FlagsOf(x | y) == FlagsOf(x) + FlagsOf(y)
  {
    var u := x | y;
    forall b ensures Either(u, x, y, b) {
      OrAt(u, x, y, b);
    }
    Union(u, x, y);
  }

  /** The lowest bit of a word. */
  lemma Lowest(x: Word)
    requires x != 0
    ensures var b := x & (0 - x); b != 0 && b & (b - 1) == 0 && x & b != 0
  {
  }

  /** A word is 0 exactly when it has no flag. */
  lemma ZeroIff(x: Word)
    ensures x == 0 <==> FlagsOf(x) == iset{}
  {
    if x != 0 {
      Lowest(x);
      assert x & (0 - x) in FlagsOf(x);
    } else {
      forall b: Word ensures b !in FlagsOf(x) {}
    }
  }

  lemma NothingElse(x: Word, y: Word)
    requires x & !y == 0
    ensures x & y == x
  {
  }

  /** Masking a word with another gives the word itself exactly when the other has its flags. */
  lemma CoversIff(x: Word, y: Word)
    ensures x & y == x <==> FlagsOf(x) <= FlagsOf(y)
  {
    And(x, y);
    Minus(x, y);
    ZeroIff(x & !y);
    if x & !y == 0 { NothingElse(x, y); }
    assert FlagsOf(x) <= FlagsOf(y) <==> FlagsOf(x) - FlagsOf(y) == iset{};
  }

  /** The flags determine the word. */
  lemma SameFlags(x: Word, y: Word)
    ensures x == y <==> FlagsOf(x) == FlagsOf(y)
  {
    CoversIff(x, y);
    CoversIff(y, x);
  }
}
