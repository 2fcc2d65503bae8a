/** The "nearest hit wins" rule of the ray caster, stated independently of
    the loop that implements it: over the hit records of one ray, in scene
    order, the first record of least finite distance decides the colour. */
module Nearest {
  import opened Scene

  /** The flat green returned for a ray that hits nothing. */
  const Background := Color(120, 180, 130)

  /** A record the caster can adopt: it reports an intersection at a
      distance below +infinity. */
  predicate Hit(h: Intersect) {
    h.isIntersecting && Below(h.distance, Infinite)
  }

  ghost predicate AnyHit(hits: seq<Intersect>) {
    exists i :: 0 <= i < |hits| && Hit(hits[i])
  }

  /** A hit appears among `hits + [x]` exactly when one appears among
      `hits` or `x` is one. */
  lemma AnyHitExtended(hits: seq<Intersect>, x: Intersect)
    ensures AnyHit(hits + [x]) <==> AnyHit(hits) || Hit(x)
  {
    var h := hits + [x];
    if AnyHit(hits) {
      var i :| 0 <= i < |hits| && Hit(hits[i]);
      assert h[i] == hits[i];
    }
    if Hit(x) {
      assert h[|hits|] == x;
    }
    if AnyHit(h) {
      var i :| 0 <= i < |h| && Hit(h[i]);
      if i < |hits| { assert h[i] == hits[i]; }
    }
  }

  /** hits[i] is a hit, no hit is nearer, and every hit before it is
      strictly farther (earlier records win ties). */
  ghost predicate IsNearest(hits: seq<Intersect>, i: int) {
    && 0 <= i < |hits|
    && Hit(hits[i])
    && (forall j :: 0 <= j < |hits| && Hit(hits[j]) ==> NotAbove(hits[i].distance, hits[j].distance))
    && (forall j :: 0 <= j < i && Hit(hits[j]) ==> Below(hits[i].distance, hits[j].distance))
  }

  /** x is no farther than any hit in `rest`. */
  ghost predicate Dominates(x: Intersect, rest: seq<Intersect>) {
    forall r :: r in rest && Hit(r) ==> NotAbove(x.distance, r.distance)
  }

  lemma {:induction false} NearestExists(hits: seq<Intersect>)
    requires AnyHit(hits)
    ensures exists i :: IsNearest(hits, i)
  {
    var n := |hits|;
    var init := hits[..n - 1];
    if AnyHit(init) {
      NearestExists(init);
      var i :| IsNearest(init, i);
      if Hit(hits[n - 1]) && Below(hits[n - 1].distance, hits[i].distance) {
        assert IsNearest(hits, n - 1);
      } else {
        assert IsNearest(hits, i);
      }
    } else {
      assert Hit(hits[n - 1]);
      assert IsNearest(hits, n - 1);
    }
  }

  /** At most one record is the first nearest one. */
  lemma NearestUnique(hits: seq<Intersect>, i: int, j: int)
    requires IsNearest(hits, i) && IsNearest(hits, j)
    ensures i == j
  {
  }

  /** The index of the winning record. */
  ghost function NearestIndex(hits: seq<Intersect>): (i: nat)
    requires AnyHit(hits)
    ensures IsNearest(hits, i)
  {
    NearestExists(hits);
    var i :| IsNearest(hits, i);
    i
  }

  /** The colour a ray with these hit records gets: the background when
      nothing hit, otherwise the winner's diffuse colour, unlit. */
  ghost function Shade(hits: seq<Intersect>): Color {
    if AnyHit(hits) then hits[NearestIndex(hits)].material.diffuse else Background
  }

  /** A ray no record reports an intersection for gets the background. */
  lemma ShadeOfMiss(hits: seq<Intersect>)
    requires forall i :: 0 <= i < |hits| ==> !hits[i].isIntersecting
    ensures Shade(hits) == Background
  {
  }

  /** With some hit, the colour is the diffuse colour of a hit that is no
      farther than any other hit and strictly nearer than every hit before it. */
  lemma ShadeOfHit(hits: seq<Intersect>)
    requires AnyHit(hits)
    ensures exists i :: IsNearest(hits, i) && Shade(hits) == hits[i].material.diffuse
  {
    var i := NearestIndex(hits);
    assert IsNearest(hits, i) && Shade(hits) == hits[i].material.diffuse;
  }

  /** How the colour of `[x] + rest` follows from that of `rest`. */
  lemma {:induction false} ShadeCons(x: Intersect, rest: seq<Intersect>)
    ensures !Hit(x) ==> Shade([x] + rest) == Shade(rest)
    ensures Hit(x) && Dominates(x, rest) ==> Shade([x] + rest) == x.material.diffuse
    ensures Hit(x) && !Dominates(x, rest) ==> Shade([x] + rest) == Shade(rest)
  {
    var h := [x] + rest;
    if Hit(x) && Dominates(x, rest) {
      assert IsNearest(h, 0) by {
        forall j | 0 <= j < |h| && Hit(h[j])
          ensures NotAbove(x.distance, h[j].distance)
        {
          if j > 0 { assert h[j] == rest[j - 1]; assert h[j] in rest; }
        }
      }
      NearestUnique(h, 0, NearestIndex(h));
    } else if Hit(x) || AnyHit(rest) {
      if Hit(x) {
        var r :| r in rest && Hit(r) && Below(r.distance, x.distance);
        var k :| 0 <= k < |rest| && rest[k] == r;
        assert AnyHit(rest);
      }
      var j := NearestIndex(rest);
      assert Hit(x) ==> Below(rest[j].distance, x.distance);
      assert IsNearest(h, j + 1) by {
        forall k | 0 <= k < |h| && Hit(h[k])
          ensures NotAbove(h[j + 1].distance, h[k].distance)
        {
          if k > 0 { assert h[k] == rest[k - 1]; }
        }
        forall k | 0 <= k < j + 1 && Hit(h[k])
          ensures Below(h[j + 1].distance, h[k].distance)
        {
          if k > 0 { assert h[k] == rest[k - 1]; }
        }
      }
      NearestUnique(h, j + 1, NearestIndex(h));
    } else {
      assert !AnyHit(h) by {
        forall k | 0 <= k < |h|
          ensures !Hit(h[k])
        {
          if k > 0 { assert h[k] == rest[k - 1]; }
        }
      }
    }
  }

  /** The hits of `hits`, in order, with every non-hitting record removed. */
  function OnlyHits(hits: seq<Intersect>): (r: seq<Intersect>)
    ensures forall h :: h in r <==> h in hits && Hit(h)
  {
    if hits == [] then []
    else (if Hit(hits[0]) then [hits[0]] else []) + OnlyHits(hits[1..])
  }

  /** Records that report no hit never change the colour. */
  lemma {:induction false} ShadeIgnoresMisses(hits: seq<Intersect>)
    ensures Shade(OnlyHits(hits)) == Shade(hits)
  {
    if hits != [] {
      var x, rest := hits[0], hits[1..];
      assert hits == [x] + rest;
      ShadeIgnoresMisses(rest);
      ShadeCons(x, rest);
      var tail := OnlyHits(rest);
      if Hit(x) {
        assert OnlyHits(hits) == [x] + tail;
        ShadeCons(x, tail);
        assert Dominates(x, rest) <==> Dominates(x, tail);
      } else {
        assert OnlyHits(hits) == tail;
      }
    }
  }

  /** Removing, adding or moving non-hitting records, so long as the hits
      keep their order, leaves the colour unchanged. */
  lemma SameHitsSameShade(a: seq<Intersect>, b: seq<Intersect>)
    requires OnlyHits(a) == OnlyHits(b)
    ensures Shade(a) == Shade(b)
  {
    ShadeIgnoresMisses(a);
    ShadeIgnoresMisses(b);
  }

  /** No two hits lie at the same distance. */
  ghost predicate DistinctHitDistances(hits: seq<Intersect>) {
    forall i, j :: 0 <= i < |hits| && 0 <= j < |hits| && i != j && Hit(hits[i]) && Hit(hits[j]) ==>
      hits[i].distance != hits[j].distance
  }

  /** When no two hits tie, scene order does not matter: any rearrangement
      of the records gives the same colour. */
  lemma ShadeOrderIndependent(a: seq<Intersect>, b: seq<Intersect>)
    requires multiset(a) == multiset(b)
    requires DistinctHitDistances(a)
    ensures Shade(a) == Shade(b)
  {
    if AnyHit(a) {
      var i := NearestIndex(a);
      assert a[i] in multiset(b);
      var bi :| 0 <= bi < |b| && b[bi] == a[i];
      assert AnyHit(b);
      var j := NearestIndex(b);
      assert b[j] in multiset(a);
      var aj :| 0 <= aj < |a| && a[aj] == b[j];
      assert NotAbove(b[j].distance, b[bi].distance);
      assert NotAbove(a[i].distance, a[aj].distance);
      assert aj == i;
    } else {
      assert !AnyHit(b) by {
        forall k | 0 <= k < |b|
          ensures !Hit(b[k])
        {
          assert b[k] in multiset(a);
        }
      }
    }
  }

  /** Two hits with the farther listed first: the nearer one's colour wins. */
  lemma NearerWinsWhenListedSecond(far: Intersect, near: Intersect)
    requires Hit(far) && Hit(near) && Below(near.distance, far.distance)
    ensures Shade([far, near]) == near.material.diffuse
  {
    assert IsNearest([far, near], 1);
    NearestUnique([far, near], 1, NearestIndex([far, near]));
  }
}
