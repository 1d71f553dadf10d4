/** Bits of one byte, most significant first.  All bit-vector reasoning of the
    project is done here, on single bytes. */
module ByteBits {

  /** The byte whose only set bit is bit `j`, counted from the most significant. */
  function Mask(j: nat): bv8
    requires j < 8
  {
    match j
    case 0 => 128
    case 1 => 64
    case 2 => 32
    case 3 => 16
    case 4 => 8
    case 5 => 4
    case 6 => 2
    case _ => 1
  }

  lemma MaskIsShift(j: nat)
    requires j < 8
    ensures Mask(j) == 1 << (7 - j)
  {
  }

  predicate ByteBit(b: bv8, j: nat)
    requires j < 8
  {
    b & Mask(j) != 0
  }

  predicate OneHot(m: bv8) {
    m == 1 || m == 2 || m == 4 || m == 8 || m == 16 || m == 32 || m == 64 || m == 128
  }

  lemma MaskOneHot(j: nat, q: nat)
    requires j < 8 && q < 8
    ensures OneHot(Mask(j)) && OneHot(Mask(q))
    ensures Mask(j) == Mask(q) <==> j == q
  {
  }

  lemma XorHit(a: bv8, b: bv8, m: bv8)
    requires OneHot(m)
    ensures ((a ^ b) & m != 0) == ((a & m != 0) != (b & m != 0))
  {
  }

  lemma OrHit(a: bv8, m: bv8, n: bv8)
    requires OneHot(m) && OneHot(n)
    ensures ((a | m) & n != 0) == (m == n || a & n != 0)
  {
  }

  lemma ClearHit(a: bv8, m: bv8, n: bv8)
    requires OneHot(m) && OneHot(n)
    ensures ((a & !m) & n != 0) == (m != n && a & n != 0)
  {
  }

  lemma XorBit(a: bv8, b: bv8, j: nat)
    requires j < 8
    ensures ByteBit(a ^ b, j) == (ByteBit(a, j) != ByteBit(b, j))
  {
    MaskOneHot(j, j);
    XorHit(a, b, Mask(j));
  }

  /** `w` is `a` with bit `j` written to `bit` and every other bit kept. */
  ghost predicate Writes(a: bv8, j: nat, bit: bool, w: bv8)
    requires j < 8
  {
    forall q: nat :: q < 8 ==> ByteBit(w, q) == (if q == j then bit else ByteBit(a, q))
  }

  lemma FlipWrites(a: bv8, j: nat)
    requires j < 8
    ensures Writes(a, j, !ByteBit(a, j), a ^ Mask(j))
  {
    forall q: nat | q < 8
      ensures ByteBit(a ^ Mask(j), q) == ((q == j) != ByteBit(a, q))
    {
      XorBit(a, Mask(j), q);
      MaskOneHot(j, q);
    }
  }

  lemma SetWrites(a: bv8, j: nat)
    requires j < 8
    ensures Writes(a, j, true, a | Mask(j))
  {
    forall q: nat | q < 8
      ensures ByteBit(a | Mask(j), q) == (q == j || ByteBit(a, q))
    {
      MaskOneHot(j, q);
      OrHit(a, Mask(j), Mask(q));
    }
  }

  lemma ClearWrites(a: bv8, j: nat)
    requires j < 8
    ensures Writes(a, j, false, a & !Mask(j))
  {
    forall q: nat | q < 8
      ensures ByteBit(a & !Mask(j), q) == (q != j && ByteBit(a, q))
    {
      MaskOneHot(j, q);
      ClearHit(a, Mask(j), Mask(q));
    }
  }

  method ShiftedOne(j: nat) returns (m: bv8)
    requires j < 8
    ensures m == Mask(j)
  {
    MaskIsShift(j);
    m := 1 << (7 - j);
  }

  method FlipBit(a: bv8, j: nat) returns (w: bv8)
    requires j < 8
    ensures Writes(a, j, !ByteBit(a, j), w)
  {
    hide ByteBit, Mask, Writes;
    var m := ShiftedOne(j);
    w := a ^ m;
    FlipWrites(a, j);
  }

  method SetBit(a: bv8, j: nat) returns (w: bv8)
    requires j < 8
    ensures Writes(a, j, true, w)
  {
    hide ByteBit, Mask, Writes;
    var m := ShiftedOne(j);
    w := a | m;
    SetWrites(a, j);
  }

  method ClearBit(a: bv8, j: nat) returns (w: bv8)
    requires j < 8
    ensures Writes(a, j, false, w)
  {
    hide ByteBit, Mask, Writes;
    var m := ShiftedOne(j);
    w := a & !m;
    ClearWrites(a, j);
  }

  method TestBit(a: bv8, j: nat) returns (isSet: bool)
    requires j < 8
    ensures isSet == ByteBit(a, j)
  {
    var m := ShiftedOne(j);
    isSet := a & m != 0;
  }

  /** Bytes differ in some bit, and the first one decides how they compare. */
  lemma FirstDifferingBit(a: bv8, b: bv8) returns (j: nat)
    requires a != b
    ensures j < 8 && ByteBit(a, j) != ByteBit(b, j)
    ensures forall q: nat :: q < j ==> ByteBit(a, q) == ByteBit(b, q)
    ensures a < b <==> ByteBit(b, j)
  {
    CompareByBits(a, b);
    if ByteBit(a, 0) != ByteBit(b, 0) { j := 0; }
    else if ByteBit(a, 1) != ByteBit(b, 1) { j := 1; }
    else if ByteBit(a, 2) != ByteBit(b, 2) { j := 2; }
    else if ByteBit(a, 3) != ByteBit(b, 3) { j := 3; }
    else if ByteBit(a, 4) != ByteBit(b, 4) { j := 4; }
    else if ByteBit(a, 5) != ByteBit(b, 5) { j := 5; }
    else if ByteBit(a, 6) != ByteBit(b, 6) { j := 6; }
    else { j := 7; }
  }

  lemma CompareByBits(a: bv8, b: bv8)
    requires a != b
    ensures ByteBit(a, 0) != ByteBit(b, 0)
         || ByteBit(a, 1) != ByteBit(b, 1)
         || ByteBit(a, 2) != ByteBit(b, 2)
         || ByteBit(a, 3) != ByteBit(b, 3)
         || ByteBit(a, 4) != ByteBit(b, 4)
         || ByteBit(a, 5) != ByteBit(b, 5)
         || ByteBit(a, 6) != ByteBit(b, 6)
         || ByteBit(a, 7) != ByteBit(b, 7)
    ensures a < b <==>
            if ByteBit(a, 0) != ByteBit(b, 0) then ByteBit(b, 0)
            else if ByteBit(a, 1) != ByteBit(b, 1) then ByteBit(b, 1)
            else if ByteBit(a, 2) != ByteBit(b, 2) then ByteBit(b, 2)
            else if ByteBit(a, 3) != ByteBit(b, 3) then ByteBit(b, 3)
            else if ByteBit(a, 4) != ByteBit(b, 4) then ByteBit(b, 4)
            else if ByteBit(a, 5) != ByteBit(b, 5) then ByteBit(b, 5)
            else if ByteBit(a, 6) != ByteBit(b, 6) then ByteBit(b, 6)
            else ByteBit(b, 7)
  {
  }

  lemma SameByte(a: bv8, b: bv8)
    requires forall j: nat :: j < 8 ==> ByteBit(a, j) == ByteBit(b, j)
    ensures a == b
  {
    if a != b {
      var j := FirstDifferingBit(a, b);
    }
  }

  lemma ZeroByte(b: bv8)
    ensures b == 0 <==> forall j: nat :: j < 8 ==> !ByteBit(b, j)
  {
    if b != 0 {
      var j := FirstDifferingBit(0, b);
    }
  }
}
