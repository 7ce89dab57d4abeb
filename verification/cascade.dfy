/**
 The mip cascade: for mip = 1 .. MipLevels-1 the working size is halved
 (integer division, no clamp), the previous level of the target texture is
 resampled into the scratch render target at that size, and the result is
 copied into subresource `mip` of the target.
 */
module MipCascade {

  import opened Graphics

  /** 2 to the power `k`. */
  function Pow2(k: nat): (p: nat)
    ensures p >= 1
  {
    if k == 0 then 1 else 2 * Pow2(k - 1)
  }

  /** The size of mip `level` of an image whose base size is `n`: halved, rounding down, once per level. */
  function LevelSize(n: nat, level: nat): (size: nat)
    ensures size <= n
    ensures level > 0 && n > 0 ==> size < n
  {
    if level == 0 then n else LevelSize(n, level - 1) / 2
  }

  /** Integer division is determined by any quotient/remainder decomposition. */
  lemma DivUnique(n: int, d: int, a: int, b: int)
    requires d > 0 && n == a * d + b && 0 <= b < d
    ensures n / d == a
  {
    var q, r := n / d, n % d;
    assert n == q * d + r && 0 <= r < d;
    var t := a - q;
    assert t * d == r - b by {
      assert a * d == (q + t) * d == q * d + t * d;
    }
    if t >= 1 {
      assert t * d >= d by { MulAtLeast(t, d); }
    } else if t <= -1 {
      assert (-t) * d >= d by { MulAtLeast(-t, d); }
    }
  }

  /** A positive multiple of `d` is at least `d`. */
  lemma MulAtLeast(t: int, d: int)
    requires t >= 1 && d > 0
    ensures t * d >= d
  {
    assert t * d == (t - 1) * d + d;
  }

  /** Halving with rounding down, then dividing by `p`, is dividing by `2p`. */
  lemma DivTwice(n: nat, p: nat)
    requires p >= 1
    ensures (n / 2) / p == n / (2 * p)
  {
    var half := n / 2;
    var q, s := half / p, half % p;
    var e := n % 2;
    assert n == 2 * half + e;
    assert half == q * p + s;
    assert q * (2 * p) == 2 * (q * p);
    DivUnique(n, 2 * p, q, 2 * s + e);
  }

  /** Halving the size of level `k` gives the size of level `k + 1`. */
  lemma {:induction false} HalvedLevelSize(n: nat, k: nat)
    ensures LevelSize(n / 2, k) == LevelSize(n, k + 1)
  {
    if k > 0 {
      HalvedLevelSize(n, k - 1);
    }
  }

  /** The size of level `k` is the base size divided by 2^k, rounded down. */
  lemma {:induction false} LevelSizeIsDivision(n: nat, k: nat)
    ensures LevelSize(n, k) == n / Pow2(k)
  {
    if k > 0 {
      HalvedLevelSize(n, k - 1);
      LevelSizeIsDivision(n / 2, k - 1);
      DivTwice(n, Pow2(k - 1));
    }
  }

  /** The render pass that produces mip `mip` (>= 1) from mip `mip - 1`. */
  function PassFor(mip: nat, width: nat, height: nat, technique: string,
                   strength: real, into: ColorFormat, vertices: nat): Event
    requires mip >= 1
  {
    RenderPass(width, height, Target, mip - 1, technique, strength, into, vertices)
  }

  /**
   The `i`-th event of the loop iterations starting at `mip`, in closed form:
   even positions render level `mip - 1 + i/2` of the target at the entry
   size halved `i/2 + 1` times, odd positions copy it into subresource
   `mip + i/2`.
   */
  function CascadeEvent(mip: nat, i: nat, width: nat, height: nat, technique: string,
                        strength: real, into: ColorFormat, vertices: nat): Event
    requires mip >= 1
  {
    var k := mip + i / 2;
    if i % 2 == 0 then
      PassFor(k, LevelSize(width, i / 2 + 1), LevelSize(height, i / 2 + 1),
              technique, strength, into, vertices)
    else CopyToMip(k)
  }

  /**
   The events of the loop iterations `mip .. levels - 1`, where `width` x
   `height` is the working size on entry (the size of level `mip - 1`). Each
   iteration halves the working size, renders the previous target level into
   the scratch render target and copies it into subresource `mip`.
   */
  function Cascade(mip: nat, levels: nat, width: nat, height: nat, technique: string,
                   strength: real, into: ColorFormat, vertices: nat): (events: seq<Event>)
    requires mip >= 1
    decreases levels - mip
    ensures |events| == if mip < levels then 2 * (levels - mip) else 0
    ensures forall i :: 0 <= i < |events| ==>
      events[i] == CascadeEvent(mip, i, width, height, technique, strength, into, vertices)
  {
    if mip >= levels then []
    else
      var w, h := width / 2, height / 2;
      var rest := Cascade(mip + 1, levels, w, h, technique, strength, into, vertices);
      assert LevelSize(width, 1) == w && LevelSize(height, 1) == h;
      assert forall i :: 0 <= i < |rest| ==>
        rest[i] == CascadeEvent(mip, i + 2, width, height, technique, strength, into, vertices) by {
        forall i | 0 <= i < |rest|
          ensures rest[i] == CascadeEvent(mip, i + 2, width, height, technique, strength, into, vertices)
        {
          CascadeEventShift(mip, i, width, height, technique, strength, into, vertices);
        }
      }
      [PassFor(mip, w, h, technique, strength, into, vertices), CopyToMip(mip)] + rest
  }

  /** Starting one iteration later from the halved size is skipping the first two events. */
  lemma CascadeEventShift(mip: nat, i: nat, width: nat, height: nat, technique: string,
                          strength: real, into: ColorFormat, vertices: nat)
    requires mip >= 1
    ensures CascadeEvent(mip + 1, i, width / 2, height / 2, technique, strength, into, vertices)
         == CascadeEvent(mip, i + 2, width, height, technique, strength, into, vertices)
  {
    assert (i + 2) / 2 == i / 2 + 1 && (i + 2) % 2 == i % 2;
    HalvedLevelSize(width, i / 2 + 1);
    HalvedLevelSize(height, i / 2 + 1);
  }
}
