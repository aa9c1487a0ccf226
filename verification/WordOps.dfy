/** The two-word macros of mini-gmp: widening product, and addition and
    subtraction of word pairs. */
module WordOps {
  import opened Arith
  import opened Limbs

  lemma {:induction false} CrossProduct(ul: int, uh: int, vl: int, vh: int)
    ensures (uh * H + ul) * (vh * H + vl) == (uh * vh) * (H * H) + (ul * vh + uh * vl) * H + ul * vl
  {
    Dist(vh * H + vl, uh * H, ul);
    Dist(uh * H, vh * H, vl);
    Dist(ul, vh * H, vl);
    assert (uh * H) * (vh * H) == (uh * vh) * (H * H) by { Assoc(uh * H, vh, H); Assoc(uh, H, vh); Assoc(uh, vh, H); }
    assert (uh * H) * vl == (uh * vl) * H by { Assoc(uh, H, vl); Assoc(uh, vl, H); }
    assert ul * (vh * H) == (ul * vh) * H by { Assoc(ul, vh, H); }
  }

  lemma {:induction false} HalfProduct(x: int, y: int)
    requires 0 <= x < H && 0 <= y < H
    ensures 0 <= x * y <= (H - 1) * (H - 1)
  {
    MulLe(x, 0, y);
    MulLe(x, y, H - 1);
    MulLe(H - 1, x, H - 1);
  }

  /** The full product of two words, from four half-word products. */
  method Umul(u: Limb, v: Limb) returns (w1: Limb, w0: Limb)
    ensures w1 * B + w0 == u * v
  {
    var ul, uh, vl, vh := u % H, u / H, v % H, v / H;
    HalfProduct(ul, vl);
    HalfProduct(ul, vh);
    HalfProduct(uh, vl);
    HalfProduct(uh, vh);
    var x0, x1, x2, x3 := ul * vl, ul * vh, uh * vl, uh * vh;
    CrossProduct(ul, uh, vl, vh);
    w1, w0 := UmulCombine(x0, x1, x2, x3, u * v);
  }

  /** The recombination of the four partial products, with its one possible carry. */
  method UmulCombine(x0: Limb, x1: Limb, x2: Limb, x3: Limb, ghost p: int) returns (w1: Limb, w0: Limb)
    requires x1 <= (H - 1) * (H - 1) && x2 <= (H - 1) * (H - 1) && x3 <= (H - 1) * (H - 1)
    requires p == x3 * (H * H) + (x1 + x2) * H + x0
    ensures w1 * B + w0 == p
  {
    var y1 := AddW(x1, x0 / H);
    y1 := AddW(y1, x2);
    var y3 := if y1 < x2 then AddW(x3, H) else x3;
    w1 := AddW(y3, y1 / H);
    w0 := AddW((y1 % H) * H, x0 % H);
  }

  method AddPair(ah: Limb, al: Limb, bh: Limb, bl: Limb) returns (sh: Limb, sl: Limb)
    ensures var sum := (ah * B + al) + (bh * B + bl);
      sh * B + sl == if sum < B * B then sum else sum - B * B
  {
    sl := AddW(al, bl);
    sh := AddW(AddW(ah, bh), if sl < al then 1 else 0);
  }

  method SubPair(ah: Limb, al: Limb, bh: Limb, bl: Limb) returns (sh: Limb, sl: Limb)
    ensures var diff := (ah * B + al) - (bh * B + bl);
      sh * B + sl == if 0 <= diff then diff else diff + B * B
  {
    sl := SubW(al, bl);
    sh := SubW(SubW(ah, bh), if al < bl then 1 else 0);
  }
}
