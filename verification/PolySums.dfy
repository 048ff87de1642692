/** Sums of products of integer polynomials: the shape of every key-switching,
    gadget and aggregation identity. */
module PolySums {
  import opened Integers
  import opened Negacyclic

  ghost predicate Uniform(ps: seq<Poly>, n: nat) {
    forall j :: 0 <= j < |ps| ==> |ps[j]| == n
  }

  /** d_0 r_0 + ... + d_{k-1} r_{k-1}. */
  ghost function Dot(n: nat, ds: seq<Poly>, rs: seq<Poly>): (r: Poly)
    requires |ds| == |rs| && Uniform(ds, n) && Uniform(rs, n)
    ensures |r| == n
  {
    var k := |ds| - 1;
    if |ds| == 0 then PZero(n) else PAdd(Dot(n, ds[..k], rs[..k]), PMul(ds[k], rs[k]))
  }

  /** g_0 d_0 + ... + g_{k-1} d_{k-1} for integers g_j. */
  ghost function Weighted(n: nat, gs: seq<int>, ds: seq<Poly>): (r: Poly)
    requires |gs| == |ds| && Uniform(ds, n)
    ensures |r| == n
  {
    var k := |ds| - 1;
    if |ds| == 0 then PZero(n) else PAdd(Weighted(n, gs[..k], ds[..k]), PScale(gs[k], ds[k]))
  }

  /** p_0 + ... + p_{k-1}. */
  ghost function Total(n: nat, ps: seq<Poly>): (r: Poly)
    requires Uniform(ps, n)
    ensures |r| == n
  {
    var k := |ps| - 1;
    if |ps| == 0 then PZero(n) else PAdd(Total(n, ps[..k]), ps[k])
  }

  // ------------------------------------------------- linear algebra of polynomials

  lemma AddComm(a: Poly, b: Poly)
    requires |a| == |b|
    ensures PAdd(a, b) == PAdd(b, a)
  {}

  lemma AddAssoc(a: Poly, b: Poly, c: Poly)
    requires |a| == |b| == |c|
    ensures PAdd(PAdd(a, b), c) == PAdd(a, PAdd(b, c))
  {}

  lemma AddInterchange(a: Poly, b: Poly, c: Poly, d: Poly)
    requires |a| == |b| == |c| == |d|
    ensures PAdd(PAdd(a, b), PAdd(c, d)) == PAdd(PAdd(a, c), PAdd(b, d))
  {}

  lemma AddZero(a: Poly)
    ensures PAdd(PZero(|a|), a) == a && PAdd(a, PZero(|a|)) == a
  {}

  lemma MulZeroRight(n: nat, a: Poly)
    requires |a| == n
    ensures PMul(a, PZero(n)) == PZero(n)
  {
    MulComm(a, PZero(n));
    MulZeroLeft(n, a);
  }

  lemma ScaleAdd(c: int, a: Poly, b: Poly)
    requires |a| == |b|
    ensures PScale(c, PAdd(a, b)) == PAdd(PScale(c, a), PScale(c, b))
  {
    forall i | 0 <= i < |a|
      ensures PScale(c, PAdd(a, b))[i] == PAdd(PScale(c, a), PScale(c, b))[i]
    {
      assert c * (a[i] + b[i]) == c * a[i] + c * b[i];
    }
  }

  lemma ScaleScale(c: int, d: int, a: Poly)
    ensures PScale(c, PScale(d, a)) == PScale(c * d, a)
  {
    forall i | 0 <= i < |a|
      ensures PScale(c, PScale(d, a))[i] == PScale(c * d, a)[i]
    {
      assert c * (d * a[i]) == c * d * a[i];
    }
  }

  // -------------------------------------------------------------------- sums

  /** Multiplying a sum of products by `s` multiplies one side of every product. */
  lemma {:induction false} DotTimes(n: nat, ds: seq<Poly>, rs: seq<Poly>, ts: seq<Poly>, s: Poly)
    requires |ds| == |rs| == |ts| && Uniform(ds, n) && Uniform(rs, n) && Uniform(ts, n) && |s| == n
    requires forall j :: 0 <= j < |rs| ==> ts[j] == PMul(rs[j], s)
    ensures PMul(Dot(n, ds, rs), s) == Dot(n, ds, ts)
  {
    hide PMul, PAdd;
    if |ds| == 0 {
      MulZeroLeft(n, s);
    } else {
      var k := |ds| - 1;
      DotTimes(n, ds[..k], rs[..k], ts[..k], s);
      MulAddLeft(Dot(n, ds[..k], rs[..k]), PMul(ds[k], rs[k]), s);
      MulAssoc(ds[k], rs[k], s);
    }
  }

  lemma {:induction false} DotAdd(n: nat, ds: seq<Poly>, rs: seq<Poly>, ts: seq<Poly>, us: seq<Poly>)
    requires |ds| == |rs| == |ts| == |us|
    requires Uniform(ds, n) && Uniform(rs, n) && Uniform(ts, n) && Uniform(us, n)
    requires forall j :: 0 <= j < |us| ==> us[j] == PAdd(rs[j], ts[j])
    ensures Dot(n, ds, us) == PAdd(Dot(n, ds, rs), Dot(n, ds, ts))
  {
    hide PMul;
    if |ds| == 0 {
      AddZero(PZero(n));
    } else {
      var k := |ds| - 1;
      DotAdd(n, ds[..k], rs[..k], ts[..k], us[..k]);
      MulAddRight(ds[k], rs[k], ts[k]);
      AddInterchange(Dot(n, ds[..k], rs[..k]), Dot(n, ds[..k], ts[..k]), PMul(ds[k], rs[k]), PMul(ds[k], ts[k]));
    }
  }

  lemma {:induction false} DotCong(n: nat, ds: seq<Poly>, rs: seq<Poly>, ts: seq<Poly>, m: int)
    requires |ds| == |rs| == |ts| && Uniform(ds, n) && Uniform(rs, n) && Uniform(ts, n)
    requires forall j :: 0 <= j < |rs| ==> PCong(rs[j], ts[j], m)
    ensures PCong(Dot(n, ds, rs), Dot(n, ds, ts), m)
  {
    hide PMul, PAdd, Cong, PCong;
    if |ds| == 0 {
      PCongRefl(PZero(n), m);
    } else {
      var k := |ds| - 1;
      DotCong(n, ds[..k], rs[..k], ts[..k], m);
      PCongRefl(ds[k], m);
      SameLength(rs[k], ts[k], m);
      PCongMulBoth(ds[k], ds[k], rs[k], ts[k], m);
      PCongAdd(Dot(n, ds[..k], rs[..k]), Dot(n, ds[..k], ts[..k]), PMul(ds[k], rs[k]), PMul(ds[k], ts[k]), m);
    }
  }

  lemma SameLength(a: Poly, b: Poly, m: int)
    requires PCong(a, b, m)
    ensures |a| == |b|
  {}

  /** A sum of products with g_j x in place of r_j. */
  lemma {:induction false} DotWeighted(n: nat, ds: seq<Poly>, gs: seq<int>, rs: seq<Poly>, x: Poly)
    requires |ds| == |gs| == |rs| && Uniform(ds, n) && Uniform(rs, n) && |x| == n
    requires forall j :: 0 <= j < |rs| ==> rs[j] == PScale(gs[j], x)
    ensures Dot(n, ds, rs) == PMul(Weighted(n, gs, ds), x)
  {
    hide PMul, PAdd, PScale;
    if |ds| == 0 {
      MulZeroLeft(n, x);
    } else {
      var k := |ds| - 1;
      DotWeighted(n, ds[..k], gs[..k], rs[..k], x);
      MulScaleRight(gs[k], ds[k], x);
      MulScaleLeft(gs[k], ds[k], x);
      MulAddLeft(Weighted(n, gs[..k], ds[..k]), PScale(gs[k], ds[k]), x);
    }
  }

  lemma {:induction false} WeightedScale(n: nat, c: int, gs: seq<int>, hs: seq<int>, ds: seq<Poly>)
    requires |gs| == |hs| == |ds| && Uniform(ds, n)
    requires forall j :: 0 <= j < |gs| ==> hs[j] == c * gs[j]
    ensures Weighted(n, hs, ds) == PScale(c, Weighted(n, gs, ds))
  {
    if |ds| == 0 {
      assert PScale(c, PZero(n)) == PZero(n);
    } else {
      hide PAdd, PScale;
      var k := |ds| - 1;
      WeightedScale(n, c, gs[..k], hs[..k], ds[..k]);
      ScaleScale(c, gs[k], ds[k]);
      ScaleAdd(c, Weighted(n, gs[..k], ds[..k]), PScale(gs[k], ds[k]));
    }
  }

  /** Sum of bounds b_j: every d_j within b_j and every r_j within B. */
  ghost function SumOf(bs: seq<int>): int {
    if |bs| == 0 then 0 else SumOf(bs[..|bs| - 1]) + bs[|bs| - 1]
  }

  lemma {:induction false} SumOfNonneg(bs: seq<int>)
    requires forall j :: 0 <= j < |bs| ==> bs[j] >= 0
    ensures SumOf(bs) >= 0
  {
    if |bs| > 0 {
      SumOfNonneg(bs[..|bs| - 1]);
    }
  }

  lemma {:induction false} DotBound(n: nat, ds: seq<Poly>, rs: seq<Poly>, bs: seq<int>, B: int)
    requires |ds| == |rs| == |bs| && Uniform(ds, n) && Uniform(rs, n) && B >= 0
    requires forall j :: 0 <= j < |ds| ==> bs[j] >= 0 && PBound(ds[j], bs[j]) && PBound(rs[j], B)
    ensures PBound(Dot(n, ds, rs), n * (SumOf(bs) * B))
  {
    hide PMul, PAdd;
    if |ds| > 0 {
      var k := |ds| - 1;
      DotBound(n, ds[..k], rs[..k], bs[..k], B);
      MulBoundPoly(ds[k], rs[k], bs[k], B);
      AddBound(Dot(n, ds[..k], rs[..k]), PMul(ds[k], rs[k]), n * (SumOf(bs[..k]) * B), n * (bs[k] * B));
      BoundArith(n, SumOf(bs[..k]), bs[k], B);
    }
  }

  lemma BoundArith(n: int, x: int, y: int, B: int)
    ensures n * (x * B) + n * (y * B) == n * ((x + y) * B)
  {
    assert (x + y) * B == x * B + y * B;
  }

  lemma {:induction false} TotalTimes(n: nat, ps: seq<Poly>, ts: seq<Poly>, s: Poly)
    requires |ps| == |ts| && Uniform(ps, n) && Uniform(ts, n) && |s| == n
    requires forall j :: 0 <= j < |ps| ==> ts[j] == PMul(ps[j], s)
    ensures PMul(Total(n, ps), s) == Total(n, ts)
  {
    hide PMul, PAdd;
    if |ps| == 0 {
      MulZeroLeft(n, s);
    } else {
      var k := |ps| - 1;
      TotalTimes(n, ps[..k], ts[..k], s);
      MulAddLeft(Total(n, ps[..k]), ps[k], s);
    }
  }

  lemma {:induction false} TotalAdd(n: nat, ps: seq<Poly>, qs: seq<Poly>, rs: seq<Poly>)
    requires |ps| == |qs| == |rs| && Uniform(ps, n) && Uniform(qs, n) && Uniform(rs, n)
    requires forall j :: 0 <= j < |rs| ==> rs[j] == PAdd(ps[j], qs[j])
    ensures Total(n, rs) == PAdd(Total(n, ps), Total(n, qs))
  {
    if |ps| == 0 {
      AddZero(PZero(n));
    } else {
      var k := |ps| - 1;
      TotalAdd(n, ps[..k], qs[..k], rs[..k]);
      AddInterchange(Total(n, ps[..k]), Total(n, qs[..k]), ps[k], qs[k]);
    }
  }

  lemma {:induction false} TotalScale(n: nat, c: int, ps: seq<Poly>, rs: seq<Poly>)
    requires |ps| == |rs| && Uniform(ps, n) && Uniform(rs, n)
    requires forall j :: 0 <= j < |rs| ==> rs[j] == PScale(c, ps[j])
    ensures Total(n, rs) == PScale(c, Total(n, ps))
  {
    if |ps| == 0 {
      assert PScale(c, PZero(n)) == PZero(n);
    } else {
      hide PAdd, PScale;
      var k := |ps| - 1;
      TotalScale(n, c, ps[..k], rs[..k]);
      ScaleAdd(c, Total(n, ps[..k]), ps[k]);
    }
  }
}
