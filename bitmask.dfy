/**
 * faucet/src/main/kotlin/org/basinmc/faucet/util/BitMask.kt: an immutable
 * set of flags packed into one int. Each mask type is its own class; masks
 * are combined only with flags of their own class, and the type's
 * definition makes the new instances and lists the permitted values.
 *
 * The int is held as its 32 bits read without sign, a number below 2^32;
 * the bitwise operators are written out bit by bit, lowest bit first.
 */
module BitMask {
  import opened JavaLang

  /** The width of a Java int. */
  const Width: nat := 32

  function Pow2(w: nat): (p: nat)
    ensures p >= 1
  {
    if w == 0 then 1 else 2 * Pow2(w - 1)
  }

  function Bool(c: bool): nat
  {
    if c then 1 else 0
  }

  /** The lowest w bits of a and b. */
  function And(a: nat, b: nat, w: nat): (r: nat)
    ensures r < Pow2(w)
  {
    if w == 0 then 0 else Bool(a % 2 == 1 && b % 2 == 1) + 2 * And(a / 2, b / 2, w - 1)
  }

  /** The lowest w bits of a and (inv b). */
  function AndNot(a: nat, b: nat, w: nat): (r: nat)
    ensures r < Pow2(w)
  {
    if w == 0 then 0 else Bool(a % 2 == 1 && b % 2 == 0) + 2 * AndNot(a / 2, b / 2, w - 1)
  }

  /** The lowest w bits of a xor b. */
  function Xor(a: nat, b: nat, w: nat): (r: nat)
    ensures r < Pow2(w)
  {
    if w == 0 then 0 else Bool(a % 2 != b % 2) + 2 * Xor(a / 2, b / 2, w - 1)
  }

  /** The number of set bits among the lowest w. */
  function Count(a: nat, w: nat): (n: nat)
    ensures n <= w
  {
    if w == 0 then 0 else a % 2 + Count(a / 2, w - 1)
  }

  /** A mask: the class it belongs to (its definition) and its 32 bits. */
  datatype Mask = Mask(kind: nat, bits: nat)

  predicate Valid(m: Mask)
  {
    m.bits < Pow2(Width)
  }

  /** size: Integer.bitCount(mask). */
  function Size(m: Mask): (n: nat)
    ensures n <= Width
  {
    Count(m.bits, Width)
  }

  /** has(state): false across classes, otherwise whether every bit of the
      flag is set in the mask. */
  predicate Has(m: Mask, state: Mask)
  {
    m.kind == state.kind && And(m.bits, state.bits, Width) == state.bits
  }

  /** set(state): the definition's instance for mask xor state, so a set
      bit of the flag is toggled; IllegalArgumentException across classes. */
  function Set(m: Mask, state: Mask): (r: Result<Mask>)
    ensures r.Ok? ==> Valid(r.value)
  {
    if m.kind != state.kind then Err(IllegalArgument)
    else Ok(Mask(m.kind, Xor(m.bits, state.bits, Width)))
  }

  /** unset(state): the instance for mask and (inv state). */
  function Unset(m: Mask, state: Mask): (r: Result<Mask>)
    ensures r.Ok? ==> Valid(r.value)
  {
    if m.kind != state.kind then Err(IllegalArgument)
    else Ok(Mask(m.kind, AndNot(m.bits, state.bits, Width)))
  }

  /** iterator(): the definition's values that the mask has, in their order. */
  function Elements(m: Mask, values: seq<Mask>): (r: seq<Mask>)
    ensures |r| <= |values|
    ensures forall x :: x in r <==> x in values && Has(m, x)
  {
    if values == [] then []
    else
      var rest := Elements(m, values[..|values| - 1]);
      var x := values[|values| - 1];
      if Has(m, x) then rest + [x] else rest
  }

  /** equals: the masks alone, whatever class either belongs to. */
  predicate MaskEquals(a: Mask, b: Mask)
  {
    a.bits == b.bits
  }

  /** The bits read as a signed int. */
  function Signed(b: nat): (n: int)
    requires b < TWO32
    ensures IsInt32(n)
  {
    if b < TWO31 then b else b - TWO32
  }

  /** hashCode(): Objects.hash(mask). */
  function MaskHash(m: Mask): (h: int)
    requires Valid(m)
    ensures IsInt32(h)
  {
    Pow2Width();
    HashAll([Signed(m.bits)])
  }

  // ---------------------------------------------------------------------
  // Properties

  lemma {:induction false} Pow2Sum(a: nat, b: nat)
    ensures Pow2(a + b) == Pow2(a) * Pow2(b)
  {
    if a > 0 {
      Pow2Sum(a - 1, b);
    }
  }

  lemma Pow2Width()
    ensures Pow2(Width) == TWO32
  {
    assert Pow2(8) == 256;
    Pow2Sum(8, 8);
    Pow2Sum(16, 16);
  }

  /** One step of each operator: the lowest bit and the rest. */
  lemma AndStep(a: nat, b: nat, w: nat)
    requires w > 0
    ensures And(a, b, w) % 2 == Bool(a % 2 == 1 && b % 2 == 1)
    ensures And(a, b, w) / 2 == And(a / 2, b / 2, w - 1)
  {
  }

  lemma AndNotStep(a: nat, b: nat, w: nat)
    requires w > 0
    ensures AndNot(a, b, w) % 2 == Bool(a % 2 == 1 && b % 2 == 0)
    ensures AndNot(a, b, w) / 2 == AndNot(a / 2, b / 2, w - 1)
  {
  }

  lemma XorStep(a: nat, b: nat, w: nat)
    requires w > 0
    ensures Xor(a, b, w) % 2 == Bool(a % 2 != b % 2)
    ensures Xor(a, b, w) / 2 == Xor(a / 2, b / 2, w - 1)
  {
  }

  /** A number of w bits none of which is set is 0. */
  lemma {:induction false} CountZero(a: nat, w: nat)
    requires a < Pow2(w)
    ensures Count(a, w) == 0 <==> a == 0
  {
    if w > 0 {
      CountZero(a / 2, w - 1);
    } else {
      assert a == 0;
    }
  }

  /** Every set bit is either in the flag or outside it. */
  lemma {:induction false} CountSplit(a: nat, s: nat, w: nat)
    ensures Count(a, w) == Count(And(a, s, w), w) + Count(AndNot(a, s, w), w)
  {
    if w > 0 {
      CountSplit(a / 2, s / 2, w - 1);
      AndStep(a, s, w);
      AndNotStep(a, s, w);
    }
  }

  /** The bits of disjoint numbers add up under xor. */
  lemma {:induction false} CountDisjoint(a: nat, s: nat, w: nat)
    requires And(a, s, w) == 0
    ensures Count(Xor(a, s, w), w) == Count(a, w) + Count(s, w)
  {
    if w > 0 {
      AndStep(a, s, w);
      XorStep(a, s, w);
      CountDisjoint(a / 2, s / 2, w - 1);
    }
  }

  /** xor with the same flag twice gives the bits back. */
  lemma {:induction false} XorTwice(a: nat, s: nat, w: nat)
    requires a < Pow2(w)
    ensures Xor(Xor(a, s, w), s, w) == a
  {
    if w > 0 {
      XorTwice(a / 2, s / 2, w - 1);
      XorStep(a, s, w);
    }
  }

  /** When every bit of s is set in a, xor with s clears them. */
  lemma {:induction false} XorPresent(a: nat, s: nat, w: nat)
    requires And(a, s, w) == s
    ensures Xor(a, s, w) == AndNot(a, s, w)
  {
    if w > 0 {
      AndStep(a, s, w);
      XorPresent(a / 2, s / 2, w - 1);
    }
  }

  /** xor leaves the bits outside s alone and flips those inside. */
  lemma {:induction false} XorOutside(a: nat, s: nat, w: nat)
    ensures AndNot(Xor(a, s, w), s, w) == AndNot(a, s, w)
  {
    if w > 0 {
      XorStep(a, s, w);
      XorOutside(a / 2, s / 2, w - 1);
    }
  }

  lemma {:induction false} XorInside(a: nat, s: nat, w: nat)
    ensures And(Xor(a, s, w), s, w) == Xor(And(a, s, w), s, w)
  {
    if w > 0 {
      XorStep(a, s, w);
      AndStep(a, s, w);
      XorInside(a / 2, s / 2, w - 1);
    }
  }

  /** and-not is idempotent, and clears every bit of s. */
  lemma {:induction false} AndNotTwice(a: nat, s: nat, w: nat)
    ensures AndNot(AndNot(a, s, w), s, w) == AndNot(a, s, w)
  {
    if w > 0 {
      AndNotStep(a, s, w);
      AndNotTwice(a / 2, s / 2, w - 1);
    }
  }

  lemma {:induction false} AndNotInside(a: nat, s: nat, w: nat)
    ensures And(AndNot(a, s, w), s, w) == 0
  {
    if w > 0 {
      AndNotStep(a, s, w);
      AndNotInside(a / 2, s / 2, w - 1);
    }
  }

  /** s and s is s (for s of at most w bits). */
  lemma {:induction false} AndSelf(s: nat, w: nat)
    requires s < Pow2(w)
    ensures And(s, s, w) == s
  {
    if w > 0 {
      AndSelf(s / 2, w - 1);
    }
  }

  lemma {:induction false} AndZero(a: nat, w: nat)
    ensures And(a, 0, w) == 0
  {
    if w > 0 {
      AndZero(a / 2, w - 1);
    }
  }

  /** For a flag of a single bit, xor with it sets it exactly when it was clear. */
  lemma {:induction false} XorSingle(a: nat, s: nat, w: nat)
    requires s < Pow2(w) && Count(s, w) == 1
    ensures And(Xor(a, s, w), s, w) == s <==> And(a, s, w) != s
    decreases w, 1
  {
    if w > 0 {
      if s % 2 == 1 {
        XorSingleLowest(a, s, w);
      } else {
        XorSingleAbove(a, s, w);
      }
    }
  }

  /** The flag is the lowest bit. */
  lemma XorSingleLowest(a: nat, s: nat, w: nat)
    requires w > 0 && s % 2 == 1 && s < Pow2(w) && Count(s, w) == 1
    ensures And(Xor(a, s, w), s, w) == s <==> And(a, s, w) != s
  {
    var x := Xor(a, s, w);
    XorStep(a, s, w);
    AndStep(a, s, w);
    AndStep(x, s, w);
    HalvesEqual(And(x, s, w), s);
    HalvesEqual(And(a, s, w), s);
    CountZero(s / 2, w - 1);
    AndZero(a / 2, w - 1);
    AndZero(x / 2, w - 1);
  }

  /** The flag lies above the lowest bit, which xor leaves alone. */
  lemma {:induction false} XorSingleAbove(a: nat, s: nat, w: nat)
    requires w > 0 && s % 2 == 0 && s < Pow2(w) && Count(s, w) == 1
    ensures And(Xor(a, s, w), s, w) == s <==> And(a, s, w) != s
    decreases w, 0
  {
    var x := Xor(a, s, w);
    XorStep(a, s, w);
    AndStep(a, s, w);
    AndStep(x, s, w);
    HalvesEqual(And(x, s, w), s);
    HalvesEqual(And(a, s, w), s);
    assert Count(s / 2, w - 1) == 1 && s / 2 < Pow2(w - 1);
    XorSingle(a / 2, s / 2, w - 1);
  }

  /** Two numbers agree when their lowest bits and the rest agree. */
  lemma HalvesEqual(n: nat, m: nat)
    ensures n == m <==> n % 2 == m % 2 && n / 2 == m / 2
  {
  }

  /** size counts the bits: it is 0 exactly for the empty mask. */
  lemma SizeZero(m: Mask)
    requires Valid(m)
    ensures Size(m) == 0 <==> m.bits == 0
  {
    CountZero(m.bits, Width);
  }

  /** unset removes from size exactly the flag's bits that were set. */
  lemma SizeOfUnset(m: Mask, state: Mask)
    requires m.kind == state.kind
    ensures Size(Unset(m, state).value) == Size(m) - Count(And(m.bits, state.bits, Width), Width)
  {
    CountSplit(m.bits, state.bits, Width);
  }

  /** set of a flag none of whose bits is set adds all of them to size. */
  lemma SizeOfSetAbsent(m: Mask, state: Mask)
    requires m.kind == state.kind && And(m.bits, state.bits, Width) == 0
    ensures Size(Set(m, state).value) == Size(m) + Size(state)
  {
    CountDisjoint(m.bits, state.bits, Width);
  }

  /** set is its own inverse. */
  lemma SetTwice(m: Mask, state: Mask)
    requires Valid(m) && m.kind == state.kind
    ensures Set(Set(m, state).value, state) == Ok(m)
  {
    XorTwice(m.bits, state.bits, Width);
  }

  /** set on a flag already had clears it, like unset. */
  lemma SetPresentClears(m: Mask, state: Mask)
    requires Has(m, state)
    ensures Set(m, state) == Unset(m, state)
  {
    XorPresent(m.bits, state.bits, Width);
  }

  /** set toggles the flag's bits and keeps every other bit. */
  lemma SetToggles(m: Mask, state: Mask)
    requires m.kind == state.kind
    ensures Set(m, state).Ok? && Set(m, state).value.kind == m.kind
    ensures AndNot(Set(m, state).value.bits, state.bits, Width) == AndNot(m.bits, state.bits, Width)
    ensures And(Set(m, state).value.bits, state.bits, Width) == Xor(And(m.bits, state.bits, Width), state.bits, Width)
  {
    XorOutside(m.bits, state.bits, Width);
    XorInside(m.bits, state.bits, Width);
  }

  /** For a flag of one bit, set makes the mask have it exactly when it did not. */
  lemma SetSingleToggles(m: Mask, state: Mask)
    requires Valid(state) && m.kind == state.kind && Size(state) == 1
    ensures Has(Set(m, state).value, state) <==> !Has(m, state)
  {
    XorSingle(m.bits, state.bits, Width);
  }

  /** unset clears the flag's bits, keeps every other bit, and is idempotent;
      afterwards the mask no longer has any non-empty flag. */
  lemma UnsetClears(m: Mask, state: Mask)
    requires m.kind == state.kind
    ensures Unset(m, state).Ok? && Unset(m, state).value.kind == m.kind
    ensures AndNot(Unset(m, state).value.bits, state.bits, Width) == AndNot(m.bits, state.bits, Width)
    ensures And(Unset(m, state).value.bits, state.bits, Width) == 0
    ensures Unset(Unset(m, state).value, state) == Unset(m, state)
    ensures state.bits != 0 ==> !Has(Unset(m, state).value, state)
  {
    AndNotTwice(m.bits, state.bits, Width);
    AndNotInside(m.bits, state.bits, Width);
  }

  /** Every valid flag is had by itself. */
  lemma HasSelf(m: Mask)
    requires Valid(m)
    ensures Has(m, m)
  {
    AndSelf(m.bits, Width);
  }

  /** Flags of another class are never had, and set and unset refuse them. */
  lemma OtherClass(m: Mask, state: Mask)
    requires m.kind != state.kind
    ensures !Has(m, state)
    ensures Set(m, state) == Err(IllegalArgument) && Unset(m, state) == Err(IllegalArgument)
  {
  }

  /** The iterator drops a value exactly when the mask does not have it. */
  lemma {:induction false} ElementsKeepAll(m: Mask, values: seq<Mask>)
    ensures |Elements(m, values)| == |values| <==> forall x :: x in values ==> Has(m, x)
  {
    if values != [] {
      var init, x := values[..|values| - 1], values[|values| - 1];
      ElementsKeepAll(m, init);
      assert values == init + [x];
      if Has(m, x) {
        assert Elements(m, values) == Elements(m, init) + [x];
      } else {
        assert Elements(m, values) == Elements(m, init);
        assert !(forall y :: y in values ==> Has(m, y));
      }
    }
  }

  /** The positions of the values `keep` accepts, in order. */
  function KeptPositions<T>(keep: T -> bool, values: seq<T>): seq<nat>
  {
    if values == [] then []
    else
      var rest := KeptPositions(keep, values[..|values| - 1]);
      if keep(values[|values| - 1]) then rest + [|values| - 1] else rest
  }

  /** values.filter(keep), built the way Elements builds the iteration. */
  function Kept<T>(keep: T -> bool, values: seq<T>): seq<T>
  {
    if values == [] then []
    else
      var rest := Kept(keep, values[..|values| - 1]);
      if keep(values[|values| - 1]) then rest + [values[|values| - 1]] else rest
  }

  /** A filter keeps the accepted values at increasing positions, and the
      positions are exactly those of accepted values. */
  lemma {:induction false} KeptInOrder<T>(keep: T -> bool, values: seq<T>)
    ensures |KeptPositions(keep, values)| == |Kept(keep, values)|
    ensures forall k :: 0 <= k < |KeptPositions(keep, values)| ==>
      KeptPositions(keep, values)[k] < |values| && Kept(keep, values)[k] == values[KeptPositions(keep, values)[k]]
    ensures forall k, l :: 0 <= k < l < |KeptPositions(keep, values)| ==> KeptPositions(keep, values)[k] < KeptPositions(keep, values)[l]
    ensures forall i :: 0 <= i < |values| ==> (i in KeptPositions(keep, values) <==> keep(values[i]))
  {
    if values != [] {
      var n := |values| - 1;
      var init, x := values[..n], values[n];
      KeptInOrder(keep, init);
      var p, e := KeptPositions(keep, init), Kept(keep, init);
      assert forall i :: 0 <= i < n ==> values[i] == init[i];
      if keep(x) {
        assert KeptPositions(keep, values) == p + [n];
        assert Kept(keep, values) == e + [x];
      } else {
        assert KeptPositions(keep, values) == p;
        assert Kept(keep, values) == e;
        assert n !in p;
      }
    }
  }

  /** has, as the predicate the iterator filters by. */
  function HasOf(m: Mask): Mask -> bool
  {
    x => Has(m, x)
  }

  /** The iteration is the filter of the values by has. */
  lemma {:induction false} ElementsAreKept(m: Mask, values: seq<Mask>)
    ensures Elements(m, values) == Kept(HasOf(m), values)
  {
    if values != [] {
      ElementsAreKept(m, values[..|values| - 1]);
    }
  }

  /** The iterator is values.filter(has): its k-th element is the value at
      the k-th position the mask has, and those positions increase and are
      exactly the ones whose value the mask has. */
  lemma ElementsInOrder(m: Mask, values: seq<Mask>)
    ensures |KeptPositions(HasOf(m), values)| == |Elements(m, values)|
    ensures forall k :: 0 <= k < |KeptPositions(HasOf(m), values)| ==>
      KeptPositions(HasOf(m), values)[k] < |values|
      && Elements(m, values)[k] == values[KeptPositions(HasOf(m), values)[k]]
    ensures forall k, l :: 0 <= k < l < |KeptPositions(HasOf(m), values)| ==>
      KeptPositions(HasOf(m), values)[k] < KeptPositions(HasOf(m), values)[l]
    ensures forall i :: 0 <= i < |values| ==> (i in KeptPositions(HasOf(m), values) <==> Has(m, values[i]))
  {
    ElementsAreKept(m, values);
    KeptInOrder(HasOf(m), values);
  }

  /** Equal masks hash alike. */
  lemma MaskHashOfEquals(a: Mask, b: Mask)
    requires Valid(a) && Valid(b) && MaskEquals(a, b)
    ensures MaskHash(a) == MaskHash(b)
  {
  }
}
