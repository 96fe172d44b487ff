/** The one-dimensional squared distance transform behind src/df.c: the exact minimum it
    computes for a line, the parabolas the two stacks of calc_df_pass hold, and the facts
    that make building and marching their lower envelope exact. Floats are modelled as reals;
    the FLT_MAX sentinel is Inf. */
module Envelope {

  /** A cell of the distance buffer: a squared distance, or FLT_MAX for "no distance". */
  datatype Dist = Inf | Fin(r: real)

  /** A vertex on the stack: the column it comes from, and the cell's value there. */
  datatype Vertex = Vertex(x: int, y: real)

  function Sq(a: real): real {
    a * a
  }

  /** The parabola a vertex stands for: (t - x)² + y. */
  function Parabola(v: Vertex, t: real): real {
    Sq(t - v.x as real) + v.y
  }

  /** For two vertices in different columns, the difference of their parabolas is linear in t. */
  lemma ParabolaDifference(p: Vertex, q: Vertex, t: real)
    ensures Parabola(p, t) - Parabola(q, t)
            == t * (2.0 * (q.x as real) - 2.0 * (p.x as real)) - ((q.y + Sq(q.x as real)) - (p.y + Sq(p.x as real)))
  {
    var a, b := p.x as real, q.x as real;
    assert Sq(t - a) == t * t - 2.0 * t * a + a * a;
    assert Sq(t - b) == t * t - 2.0 * t * b + b * b;
  }

  /** calc_x_intersection: where the parabolas of two vertices in different columns meet. */
  function Intersection(p: Vertex, q: Vertex): real
    requires p.x != q.x
  {
    ((q.y + Sq(q.x as real)) - (p.y + Sq(p.x as real))) / (2.0 * (q.x as real) - 2.0 * (p.x as real))
  }

  /** At the crossing the two parabolas take the same value. */
  lemma CrossingMeets(p: Vertex, q: Vertex)
    requires p.x != q.x
    ensures Parabola(p, Intersection(p, q)) == Parabola(q, Intersection(p, q))
  {
    var n := (q.y + Sq(q.x as real)) - (p.y + Sq(p.x as real));
    var d := 2.0 * (q.x as real) - 2.0 * (p.x as real);
    var s := Intersection(p, q);
    assert s * d == n;
    ParabolaDifference(p, q, s);
  }

  /** Left of their crossing the parabola of the left vertex is the lower one, right of it the
      parabola of the right vertex. */
  lemma LowerLeftOfCrossing(p: Vertex, q: Vertex, t: real)
    requires p.x < q.x
    ensures Parabola(p, t) <= Parabola(q, t) <==> t <= Intersection(p, q)
    ensures Parabola(p, t) < Parabola(q, t) <==> t < Intersection(p, q)
  {
    var n := (q.y + Sq(q.x as real)) - (p.y + Sq(p.x as real));
    var d := 2.0 * (q.x as real) - 2.0 * (p.x as real);
    var s := Intersection(p, q);
    assert d > 0.0 && s * d == n;
    ParabolaDifference(p, q, t);
    assert Parabola(p, t) - Parabola(q, t) == (t - s) * d;
    if t < s {
      assert (t - s) * d < 0.0;
    } else if t > s {
      assert (t - s) * d > 0.0;
    }
  }

  /** The pop test of calc_df_pass: when q's crossing with the top vertex b lies left of b's
      crossing with the vertex a below it, b is nowhere lower than both a and q. */
  lemma PoppedIsCovered(a: Vertex, b: Vertex, q: Vertex, t: real)
    requires a.x < b.x < q.x
    requires Intersection(b, q) < Intersection(a, b)
    ensures Parabola(a, t) <= Parabola(b, t) || Parabola(q, t) < Parabola(b, t)
  {
    LowerLeftOfCrossing(a, b, t);
    LowerLeftOfCrossing(b, q, t);
  }

  // ---------------------------------------------------------------------------------------
  // The exact one-dimensional transform

  /** Column j's candidate for position x: (x - j)² + f[j], or none when f[j] is FLT_MAX. */
  function Cost(f: seq<Dist>, j: nat, x: int): Dist
    requires j < |f|
  {
    if f[j].Fin? then Fin(Sq(x as real - j as real) + f[j].r) else Inf
  }

  /** The smaller of two cells, FLT_MAX being larger than every distance. */
  function DMin(a: Dist, b: Dist): (m: Dist)
    ensures m == a || m == b
    ensures m.Inf? <==> a.Inf? && b.Inf?
    ensures m.Fin? ==> (a.Fin? ==> m.r <= a.r) && (b.Fin? ==> m.r <= b.r)
  {
    if a.Inf? then b else if b.Inf? then a else if a.r <= b.r then a else b
  }

  function MinBelow(f: seq<Dist>, x: int, k: nat): Dist
    requires k <= |f|
  {
    if k == 0 then Inf else DMin(MinBelow(f, x, k - 1), Cost(f, k - 1, x))
  }

  /** The exact squared distance transform of a line at x: the least (x - j)² + f[j] over its
      columns j holding a distance; Inf when none does. */
  function LineMin(f: seq<Dist>, x: int): Dist {
    MinBelow(f, x, |f|)
  }

  lemma {:induction false} MinBelowIsMin(f: seq<Dist>, x: int, k: nat)
    requires k <= |f|
    ensures MinBelow(f, x, k).Inf? <==> forall j :: 0 <= j < k ==> f[j].Inf?
    ensures MinBelow(f, x, k).Fin? ==> exists j :: 0 <= j < k && Cost(f, j, x) == MinBelow(f, x, k)
    ensures MinBelow(f, x, k).Fin? ==> forall j :: 0 <= j < k && f[j].Fin? ==> MinBelow(f, x, k).r <= Cost(f, j, x).r
  {
    if k > 0 {
      MinBelowIsMin(f, x, k - 1);
      if MinBelow(f, x, k) == Cost(f, k - 1, x) {
        assert Cost(f, k - 1, x).Fin? ==> Cost(f, k - 1, x) == MinBelow(f, x, k);
      }
    }
  }

  /** LineMin is the minimum: Inf exactly when no column holds a distance, and otherwise the
      candidate of some column that no other column's candidate undercuts. */
  lemma LineMinIsMin(f: seq<Dist>, x: int)
    ensures LineMin(f, x).Inf? <==> forall j :: 0 <= j < |f| ==> f[j].Inf?
    ensures LineMin(f, x).Fin? ==> exists j :: 0 <= j < |f| && Cost(f, j, x) == LineMin(f, x)
    ensures LineMin(f, x).Fin? ==> forall j :: 0 <= j < |f| && f[j].Fin? ==> LineMin(f, x).r <= Cost(f, j, x).r
  {
    MinBelowIsMin(f, x, |f|);
  }

  /** A column whose candidate no other column undercuts gives the minimum. */
  lemma LineMinByWitness(f: seq<Dist>, x: int, j0: nat)
    requires j0 < |f| && f[j0].Fin?
    requires forall j :: 0 <= j < |f| && f[j].Fin? ==> Cost(f, j0, x).r <= Cost(f, j, x).r
    ensures LineMin(f, x) == Cost(f, j0, x)
  {
    LineMinIsMin(f, x);
    var j1 :| 0 <= j1 < |f| && Cost(f, j1, x) == LineMin(f, x);
  }

  /** A pass never increases a cell: the cell's own column is a candidate, at distance 0. */
  lemma LineMinNotAbove(f: seq<Dist>, x: nat)
    requires x < |f| && f[x].Fin?
    ensures LineMin(f, x).Fin? && LineMin(f, x).r <= f[x].r
  {
    LineMinIsMin(f, x);
    assert Cost(f, x, x).r == f[x].r;
  }

  /** A line without a distance is left as it is. */
  lemma LineMinOfEmpty(f: seq<Dist>, x: int)
    requires forall j :: 0 <= j < |f| ==> f[j].Inf?
    ensures LineMin(f, x) == Inf
  {
    LineMinIsMin(f, x);
  }

  // ---------------------------------------------------------------------------------------
  // The lower envelope on the stacks

  /** The vertex column j of the line contributes. */
  function V(f: seq<Dist>, j: nat): Vertex
    requires j < |f| && f[j].Fin?
  {
    Vertex(j, f[j].r)
  }

  /** The lowest of the parabolas of a non-empty stack at t. */
  function EnvMin(vs: seq<Vertex>, t: real): (m: real)
    requires |vs| > 0
    ensures forall k :: 0 <= k < |vs| ==> m <= Parabola(vs[k], t)
    ensures exists k :: 0 <= k < |vs| && m == Parabola(vs[k], t)
  {
    if |vs| == 1 then Parabola(vs[0], t)
    else
      var m := EnvMin(vs[..|vs| - 1], t);
      assert forall k :: 0 <= k < |vs| - 1 ==> vs[..|vs| - 1][k] == vs[k];
      if m <= Parabola(vs[|vs| - 1], t) then m else Parabola(vs[|vs| - 1], t)
  }

  /** Nowhere does the parabola of v lie below every parabola of the stack. */
  ghost predicate Dominated(vs: seq<Vertex>, v: Vertex)
    requires |vs| > 0
  {
    forall t: real :: EnvMin(vs, t) <= Parabola(v, t)
  }

  /** Every parabola of a column before x holding a distance is dominated by the stack. */
  ghost predicate DominatesAll(vs: seq<Vertex>, f: seq<Dist>, x: nat)
    requires |vs| > 0 && x <= |f|
  {
    forall j :: 0 <= j < x && f[j].Fin? ==> Dominated(vs, V(f, j))
  }

  /** The envelope of us is nowhere above that of ws. */
  ghost predicate Lower(us: seq<Vertex>, ws: seq<Vertex>)
    requires |us| > 0 && |ws| > 0
  {
    forall t: real :: EnvMin(us, t) <= EnvMin(ws, t)
  }

  lemma LowerDominates(us: seq<Vertex>, ws: seq<Vertex>, f: seq<Dist>, x: nat)
    requires |us| > 0 && |ws| > 0 && x <= |f|
    requires Lower(us, ws) && DominatesAll(ws, f, x)
    ensures DominatesAll(us, f, x)
  {
    forall j | 0 <= j < x && f[j].Fin? ensures Dominated(us, V(f, j)) {
      assert Dominated(ws, V(f, j));
      forall t: real ensures EnvMin(us, t) <= Parabola(V(f, j), t) {
        assert EnvMin(ws, t) <= Parabola(V(f, j), t);
      }
    }
  }

  /** The shape of the two stacks: columns increasing, each crossing that of two neighbouring
      vertices, and the crossings non-decreasing. */
  predicate Stacks(vs: seq<Vertex>, zs: seq<real>) {
    && |vs| == |zs| + 1
    && (forall k :: 0 <= k < |zs| ==> vs[k].x < vs[k + 1].x)
    && (forall k :: 0 <= k < |zs| ==> zs[k] == Intersection(vs[k], vs[k + 1]))
    && (forall k, l :: 0 <= k <= l < |zs| ==> zs[k] <= zs[l])
  }

  /** Each vertex is the cell of a column before x that holds a distance. */
  predicate Admitted(vs: seq<Vertex>, f: seq<Dist>, x: int) {
    forall k :: 0 <= k < |vs| ==> 0 <= vs[k].x < x && vs[k].x < |f| && f[vs[k].x] == Fin(vs[k].y)
  }

  /** The stacks after the columns before x have been read: empty when none held a distance,
      and otherwise an envelope that dominates every parabola read so far. */
  ghost predicate EnvelopeOf(vs: seq<Vertex>, zs: seq<real>, f: seq<Dist>, x: nat)
    requires x <= |f|
  {
    if vs == [] then zs == [] && forall j :: 0 <= j < x ==> f[j].Inf?
    else
      Stacks(vs, zs) && Admitted(vs, f, x) && DominatesAll(vs, f, x)
  }

  /** A column holding FLT_MAX is skipped (src/df.c:41-45): its parabola would be at infinity. */
  lemma SkipColumn(vs: seq<Vertex>, zs: seq<real>, f: seq<Dist>, x: nat, x': nat)
    requires x < |f| && x' == x + 1 && f[x].Inf? && EnvelopeOf(vs, zs, f, x)
    ensures EnvelopeOf(vs, zs, f, x')
  {
  }

  /** The first column holding a distance starts the stack. */
  lemma PushFirst(f: seq<Dist>, x: nat, x': nat)
    requires x < |f| && x' == x + 1 && f[x].Fin? && EnvelopeOf([], [], f, x)
    ensures EnvelopeOf([V(f, x)], [], f, x')
  {
    var vs := [V(f, x)];
    forall j | 0 <= j < x' && f[j].Fin? ensures Dominated(vs, V(f, j)) {
      assert j == x;
    }
  }

  /** During the pops: the stacks keep their shape, and the remaining vertices together with the
      new vertex q dominate every parabola read before x. */
  ghost predicate Popping(vs: seq<Vertex>, zs: seq<real>, q: Vertex, f: seq<Dist>, x: nat)
    requires x <= |f|
  {
    Stacks(vs, zs) && Admitted(vs, f, x) && q.x == x && DominatesAll(vs + [q], f, x)
  }

  /** Adding a vertex only lowers the envelope. */
  lemma AppendLowers(vs: seq<Vertex>, q: Vertex, t: real)
    requires |vs| > 0
    ensures EnvMin(vs + [q], t) <= EnvMin(vs, t)
    ensures EnvMin(vs + [q], t) <= Parabola(q, t)
  {
    assert (vs + [q])[..|vs|] == vs;
  }

  lemma StartPops(vs: seq<Vertex>, zs: seq<real>, f: seq<Dist>, x: nat)
    requires x < |f| && f[x].Fin? && vs != [] && EnvelopeOf(vs, zs, f, x)
    ensures Popping(vs, zs, V(f, x), f, x)
  {
    var q := V(f, x);
    forall t: real ensures EnvMin(vs + [q], t) <= EnvMin(vs, t) {
      AppendLowers(vs, q, t);
    }
    LowerDominates(vs + [q], vs, f, x);
  }

  /** Dropping the top vertex keeps the shape of the stacks. */
  lemma StacksPrefix(vs: seq<Vertex>, zs: seq<real>, f: seq<Dist>, x: nat)
    requires Stacks(vs, zs) && Admitted(vs, f, x) && |zs| > 0
    ensures Stacks(vs[..|vs| - 1], zs[..|zs| - 1]) && Admitted(vs[..|vs| - 1], f, x)
  {
  }

  /** Pushing a vertex right of the top, with their crossing not left of the last one, keeps it. */
  lemma StacksPush(vs: seq<Vertex>, zs: seq<real>, q: Vertex, f: seq<Dist>, x: nat)
    requires Stacks(vs, zs) && Admitted(vs, f, x) && x < |f| && f[x].Fin? && q == V(f, x)
    requires |zs| == 0 || !(Intersection(vs[|vs| - 1], q) < zs[|zs| - 1])
    ensures Stacks(vs + [q], zs + [Intersection(vs[|vs| - 1], q)]) && Admitted(vs + [q], f, x + 1)
  {
    var vs', zs' := vs + [q], zs + [Intersection(vs[|vs| - 1], q)];
    assert forall k :: 0 <= k < |vs| ==> vs'[k] == vs[k];
    assert vs'[|vs|] == q;
    assert forall k :: 0 <= k < |zs| ==> zs'[k] == zs[k];
  }

  /** The top of the stack lies left of the column being read, so its crossing with q is defined. */
  lemma TopLeftOf(vs: seq<Vertex>, zs: seq<real>, q: Vertex, f: seq<Dist>, x: nat)
    requires x <= |f| && Popping(vs, zs, q, f, x)
    ensures vs[|vs| - 1].x < q.x
  {
  }

  /** One pop (src/df.c:55-59). */
  lemma PopStep(vs: seq<Vertex>, zs: seq<real>, q: Vertex, f: seq<Dist>, x: nat)
    requires x <= |f| && Popping(vs, zs, q, f, x) && |zs| > 0
    requires Intersection(vs[|vs| - 1], q) < zs[|zs| - 1]
    ensures Popping(vs[..|vs| - 1], zs[..|zs| - 1], q, f, x)
  {
    var n := |vs| - 1;
    var rest := vs[..n];
    StacksPrefix(vs, zs, f, x);
    PopLowers(vs, zs, q, x);
    LowerDominates(rest + [q], vs + [q], f, x);
  }

  lemma PopLowers(vs: seq<Vertex>, zs: seq<real>, q: Vertex, x: int)
    requires Stacks(vs, zs) && |zs| > 0 && q.x == x && vs[|vs| - 1].x < x
    requires Intersection(vs[|vs| - 1], q) < zs[|zs| - 1]
    ensures Lower(vs[..|vs| - 1] + [q], vs + [q])
  {
    var n := |vs| - 1;
    var rest := vs[..n];
    var a, b := vs[n - 1], vs[n];
    assert zs[|zs| - 1] == Intersection(a, b);
    assert (vs + [q])[..|vs|] == vs;
    assert vs[..n] == rest;
    assert (rest + [q])[..n] == rest;
    forall t: real ensures EnvMin(rest + [q], t) <= EnvMin(vs + [q], t) {
      PoppedIsCovered(a, b, q, t);
      assert EnvMin(rest, t) <= Parabola(a, t);
    }
  }

  /** The pushes that end a column (src/df.c:61-66). */
  lemma EndPops(vs: seq<Vertex>, zs: seq<real>, q: Vertex, f: seq<Dist>, x: nat, x': nat)
    requires x < |f| && x' == x + 1 && f[x].Fin? && q == V(f, x) && Popping(vs, zs, q, f, x)
    requires |zs| == 0 || !(Intersection(vs[|vs| - 1], q) < zs[|zs| - 1])
    ensures EnvelopeOf(vs + [q], zs + [Intersection(vs[|vs| - 1], q)], f, x')
  {
    var vs' := vs + [q];
    StacksPush(vs, zs, q, f, x);
    forall j | 0 <= j < x' && f[j].Fin? ensures Dominated(vs', V(f, j)) {
      if j == x {
        forall t: real ensures EnvMin(vs', t) <= Parabola(V(f, j), t) {
          AppendLowers(vs, q, t);
        }
      } else {
        assert DominatesAll(vs', f, x);
      }
    }
    assert DominatesAll(vs', f, x');
  }

  // ---------------------------------------------------------------------------------------
  // Marching the envelope

  lemma CostIsParabola(f: seq<Dist>, j: nat, x: int)
    requires j < |f| && f[j].Fin?
    ensures Cost(f, j, x) == Fin(Parabola(V(f, j), x as real))
  {
  }

  /** The parabola march_parabolas picks at t, the i-th, past every crossing left of t and not
      past the first one at or right of it, is the lowest parabola of the stack at t. */
  lemma {:induction false} PickIsLowest(vs: seq<Vertex>, zs: seq<real>, i: nat, t: real)
    requires Stacks(vs, zs) && i <= |zs|
    requires forall m :: 0 <= m < i ==> zs[m] < t
    requires i < |zs| ==> t <= zs[i]
    ensures forall m :: 0 <= m < |vs| ==> Parabola(vs[i], t) <= Parabola(vs[m], t)
  {
    forall m | i < m < |vs| ensures Parabola(vs[i], t) <= Parabola(vs[m], t) {
      PickRight(vs, zs, i, m, t);
    }
    forall m | 0 <= m < i ensures Parabola(vs[i], t) <= Parabola(vs[m], t) {
      PickLeft(vs, zs, i, m, t);
    }
  }

  lemma {:induction false} PickRight(vs: seq<Vertex>, zs: seq<real>, i: nat, m: nat, t: real)
    requires Stacks(vs, zs) && i <= m < |vs| && i < |zs| && t <= zs[i]
    ensures Parabola(vs[i], t) <= Parabola(vs[m], t)
    decreases m
  {
    if m > i {
      PickRight(vs, zs, i, m - 1, t);
      LowerLeftOfCrossing(vs[m - 1], vs[m], t);
      assert zs[i] <= zs[m - 1];
    }
  }

  lemma {:induction false} PickLeft(vs: seq<Vertex>, zs: seq<real>, i: nat, m: nat, t: real)
    requires Stacks(vs, zs) && m <= i < |vs|
    requires forall k :: 0 <= k < i ==> zs[k] < t
    ensures Parabola(vs[i], t) <= Parabola(vs[m], t)
    decreases i - m
  {
    if m < i {
      PickLeft(vs, zs, i, m + 1, t);
      LowerLeftOfCrossing(vs[m], vs[m + 1], t);
    }
  }

  /** With the whole line read, the picked parabola gives the exact transform at x, and it is no
      larger than the cell's own value. */
  lemma MarchExact(vs: seq<Vertex>, zs: seq<real>, f: seq<Dist>, i: nat, x: nat)
    requires x < |f| && vs != [] && EnvelopeOf(vs, zs, f, |f|) && i <= |zs|
    requires forall m :: 0 <= m < i ==> zs[m] < x as real
    requires i < |zs| ==> x as real <= zs[i]
    ensures LineMin(f, x) == Fin(Parabola(vs[i], x as real))
    ensures f[x].Fin? ==> Parabola(vs[i], x as real) <= f[x].r
  {
    var t := x as real;
    PickIsLowest(vs, zs, i, t);
    var e := EnvMin(vs, t);
    var k :| 0 <= k < |vs| && e == Parabola(vs[k], t);
    assert Parabola(vs[i], t) <= e;
    var j0 := vs[i].x;
    assert vs[i] == V(f, j0);
    CostIsParabola(f, j0, x);
    forall j | 0 <= j < |f| && f[j].Fin? ensures Cost(f, j0, x).r <= Cost(f, j, x).r {
      assert Dominated(vs, V(f, j)) by {
        assert DominatesAll(vs, f, |f|);
      }
      assert e <= Parabola(V(f, j), t);
      CostIsParabola(f, j, x);
    }
    LineMinByWitness(f, x, j0);
    if f[x].Fin? {
      assert Cost(f, x, x).r == f[x].r;
    }
  }

  /** x lies between crossings i - 1 and i, so the parabola of vertex i is the one in front
      of it (the sweep at src/df.c:12-14). */
  predicate Covers(zs: seq<real>, i: int, x: int) {
    && 0 <= i <= |zs|
    && (forall m :: 0 <= m < i ==> zs[m] < x as real)
    && (i < |zs| ==> x as real <= zs[i])
  }

  /** A cell lowered to the value at x of the parabola of v (src/df.c:16-20); FLT_MAX is
      lowered by any distance. */
  function Lowered(cell: Dist, v: Vertex, x: int): (d: Dist)
    ensures d.Fin?
  {
    var p := Parabola(v, x as real);
    if cell.Inf? || p < cell.r then Fin(p) else cell
  }

  /** What the sweep needs of the stacks: at every column, lowering the cell to the parabola
      in front gives the line's exact transform. */
  ghost predicate Marchable(vs: seq<Vertex>, zs: seq<real>, f: seq<Dist>) {
    && |vs| == |zs| + 1
    && forall i, x :: 0 <= x < |f| && Covers(zs, i, x) ==> Lowered(f[x], vs[i], x) == LineMin(f, x)
  }

  /** The stacks built from a whole line (src/df.c:29-75) are what the sweep needs. */
  lemma EnvelopeMarchable(vs: seq<Vertex>, zs: seq<real>, f: seq<Dist>)
    requires vs != [] && EnvelopeOf(vs, zs, f, |f|)
    ensures Marchable(vs, zs, f)
  {
    forall i, x | 0 <= x < |f| && Covers(zs, i, x)
      ensures Lowered(f[x], vs[i], x) == LineMin(f, x)
    {
      MarchExact(vs, zs, f, i, x);
    }
  }
}
