/** The component-wise bounding box of a set of points (`minmax` in
    src/geometry/common.rs). */
module BoundingBox {
  import opened Vectors

  /** `a` is component-wise at most `b`. */
  predicate Le(a: Vec3, b: Vec3) {
    a.x <= b.x && a.y <= b.y && a.z <= b.z
  }

  /** One iteration of the loop: each of the six components of the running
      (min, max) pair is replaced independently when `v` beats it. */
  function Step(box: (Vec3, Vec3), v: Vec3): (Vec3, Vec3) {
    var (lo, hi) := box;
    (Vec3(if v.x < lo.x then v.x else lo.x,
          if v.y < lo.y then v.y else lo.y,
          if v.z < lo.z then v.z else lo.z),
     Vec3(if v.x > hi.x then v.x else hi.x,
          if v.y > hi.y then v.y else hi.y,
          if v.z > hi.z then v.z else hi.z))
  }

  /** The loop over `vs`, starting from the running pair `box`. Each result
      component is bounded by the start and by every vector, and is taken
      either from the start or from some vector. */
  function Scan(vs: seq<Vec3>, box: (Vec3, Vec3)): (r: (Vec3, Vec3))
    ensures Le(r.0, box.0) && Le(box.1, r.1)
    ensures forall i :: 0 <= i < |vs| ==> Le(r.0, vs[i]) && Le(vs[i], r.1)
    ensures r.0.x == box.0.x || exists i :: 0 <= i < |vs| && r.0.x == vs[i].x
    ensures r.0.y == box.0.y || exists i :: 0 <= i < |vs| && r.0.y == vs[i].y
    ensures r.0.z == box.0.z || exists i :: 0 <= i < |vs| && r.0.z == vs[i].z
    ensures r.1.x == box.1.x || exists i :: 0 <= i < |vs| && r.1.x == vs[i].x
    ensures r.1.y == box.1.y || exists i :: 0 <= i < |vs| && r.1.y == vs[i].y
    ensures r.1.z == box.1.z || exists i :: 0 <= i < |vs| && r.1.z == vs[i].z
    decreases |vs|
  {
    if |vs| == 0 then box
    else
      var r := Scan(vs[1..], Step(box, vs[0]));
      assert forall i :: 1 <= i < |vs| ==> vs[i] == vs[1..][i - 1];
      r
  }

  /** `minmax(vectors)`: the pair (min, max), both seeded from `vectors[0]`,
      so the input must not be empty. Min is a component-wise lower bound of
      every input and max an upper bound, and each of their components is
      the matching component of some input vector. */
  function MinMax(vs: seq<Vec3>): (r: (Vec3, Vec3))
    requires |vs| > 0
    ensures forall i :: 0 <= i < |vs| ==> Le(r.0, vs[i]) && Le(vs[i], r.1)
    ensures exists i :: 0 <= i < |vs| && r.0.x == vs[i].x
    ensures exists i :: 0 <= i < |vs| && r.0.y == vs[i].y
    ensures exists i :: 0 <= i < |vs| && r.0.z == vs[i].z
    ensures exists i :: 0 <= i < |vs| && r.1.x == vs[i].x
    ensures exists i :: 0 <= i < |vs| && r.1.y == vs[i].y
    ensures exists i :: 0 <= i < |vs| && r.1.z == vs[i].z
  {
    Scan(vs, (vs[0], vs[0]))
  }

  /** A single vector is its own bounding box. */
  lemma MinMaxSingle(v: Vec3)
    ensures MinMax([v]) == (v, v)
  {
    var r := MinMax([v]);
    assert Le(r.0, v) && Le(v, r.1);
  }

  /** The bounding box is the only pair with both properties of MinMax: a
      component-wise lower and upper bound whose every component is taken
      from some input. */
  lemma MinMaxUnique(vs: seq<Vec3>, lo: Vec3, hi: Vec3)
    requires |vs| > 0
    requires forall i :: 0 <= i < |vs| ==> Le(lo, vs[i]) && Le(vs[i], hi)
    requires exists i :: 0 <= i < |vs| && lo.x == vs[i].x
    requires exists i :: 0 <= i < |vs| && lo.y == vs[i].y
    requires exists i :: 0 <= i < |vs| && lo.z == vs[i].z
    requires exists i :: 0 <= i < |vs| && hi.x == vs[i].x
    requires exists i :: 0 <= i < |vs| && hi.y == vs[i].y
    requires exists i :: 0 <= i < |vs| && hi.z == vs[i].z
    ensures MinMax(vs) == (lo, hi)
  {
    var r := MinMax(vs);
    var a :| 0 <= a < |vs| && lo.x == vs[a].x;
    var b :| 0 <= b < |vs| && lo.y == vs[b].y;
    var c :| 0 <= c < |vs| && lo.z == vs[c].z;
    var d :| 0 <= d < |vs| && hi.x == vs[d].x;
    var e :| 0 <= e < |vs| && hi.y == vs[e].y;
    var f :| 0 <= f < |vs| && hi.z == vs[f].z;
    var a' :| 0 <= a' < |vs| && r.0.x == vs[a'].x;
    var b' :| 0 <= b' < |vs| && r.0.y == vs[b'].y;
    var c' :| 0 <= c' < |vs| && r.0.z == vs[c'].z;
    var d' :| 0 <= d' < |vs| && r.1.x == vs[d'].x;
    var e' :| 0 <= e' < |vs| && r.1.y == vs[e'].y;
    var f' :| 0 <= f' < |vs| && r.1.z == vs[f'].z;
    assert Le(r.0, vs[a]) && Le(r.0, vs[b]) && Le(r.0, vs[c]);
    assert Le(vs[d], r.1) && Le(vs[e], r.1) && Le(vs[f], r.1);
    assert Le(lo, vs[a']) && Le(lo, vs[b']) && Le(lo, vs[c']);
    assert Le(vs[d'], hi) && Le(vs[e'], hi) && Le(vs[f'], hi);
    assert r.0.x == lo.x && r.0.y == lo.y && r.0.z == lo.z;
    assert r.1.x == hi.x && r.1.y == hi.y && r.1.z == hi.z;
  }

  /** The unit test of the source: the components of min and max come from
      different input vectors, so neither is itself an input. */
  lemma MinMaxExample()
    ensures var vs := [Vec3(30.0, 17.0, 44.0), Vec3(20.0, 42.0, 22.0), Vec3(50.0, 93.0, 7.0),
                       Vec3(8.0, 6.0, 11.0), Vec3(10.0, 15.0, 64.0)];
            && MinMax(vs) == (Vec3(8.0, 6.0, 7.0), Vec3(50.0, 93.0, 64.0))
            && Vec3(8.0, 6.0, 7.0) !in vs && Vec3(50.0, 93.0, 64.0) !in vs
  {
    var vs := [Vec3(30.0, 17.0, 44.0), Vec3(20.0, 42.0, 22.0), Vec3(50.0, 93.0, 7.0),
               Vec3(8.0, 6.0, 11.0), Vec3(10.0, 15.0, 64.0)];
    var lo, hi := Vec3(8.0, 6.0, 7.0), Vec3(50.0, 93.0, 64.0);
    assert lo !in vs && hi !in vs by {
      assert vs[0].x != lo.x && vs[1].x != lo.x && vs[2].x != lo.x && vs[3].z != lo.z && vs[4].x != lo.x;
      assert vs[0].x != hi.x && vs[1].x != hi.x && vs[2].z != hi.z && vs[3].x != hi.x && vs[4].x != hi.x;
    }
    assert lo.x == vs[3].x && lo.y == vs[3].y && lo.z == vs[2].z;
    assert hi.x == vs[2].x && hi.y == vs[2].y && hi.z == vs[4].z;
    MinMaxUnique(vs, lo, hi);
  }
}
