/** `cast_ray` and `render`: per pixel, pick the nearest hit along the
    camera ray and write its flat colour into the frame. */
module Renderer {
  import opened Scene
  import opened Nearest
  import opened Frame

  /** The hit records of one ray against the objects, in scene order. */
  function HitsAlong(objects: seq<Sphere>, rayIntersect: Intersector, origin: Vec3, direction: Vec3): (hits: seq<Intersect>)
    ensures |hits| == |objects|
  {
    seq(|objects|, i requires 0 <= i < |objects| => rayIntersect(objects[i], origin, direction))
  }

  /** `cast_ray`: scans the objects once, keeping the hit of least distance
      seen so far (a later hit replaces it only when strictly nearer), and
      returns the background when nothing hit, else the winner's diffuse
      colour. */
  method CastRay(origin: Vec3, direction: Vec3, objects: seq<Sphere>, rayIntersect: Intersector) returns (c: Color)
    ensures c == Shade(HitsAlong(objects, rayIntersect, origin, direction))
    ensures (forall i :: 0 <= i < |objects| ==> !rayIntersect(objects[i], origin, direction).isIntersecting) ==>
      c == Background
    ensures AnyHit(HitsAlong(objects, rayIntersect, origin, direction)) ==>
      exists i :: IsNearest(HitsAlong(objects, rayIntersect, origin, direction), i) &&
        c == rayIntersect(objects[i], origin, direction).material.diffuse
  {
    ghost var hits := HitsAlong(objects, rayIntersect, origin, direction);
    var intersect := Empty;
    var zbuffer := Infinite;
    ghost var winner := 0;
    for k := 0 to |objects|
      invariant intersect.isIntersecting <==> AnyHit(hits[..k])
      invariant intersect.isIntersecting ==>
        IsNearest(hits[..k], winner) && intersect == hits[winner] && zbuffer == intersect.distance
      invariant !intersect.isIntersecting ==> zbuffer == Infinite
    {
      var tmp := rayIntersect(objects[k], origin, direction);
      AnyHitExtended(hits[..k], tmp);
      assert hits[..k + 1] == hits[..k] + [tmp];
      if tmp.isIntersecting && Below(tmp.distance, zbuffer) {
        zbuffer := tmp.distance;
        intersect := tmp;
        winner := k;
      }
    }
    assert hits[..|objects|] == hits;
    if !intersect.isIntersecting {
      return Background;
    }
    NearestUnique(hits, winner, NearestIndex(hits));
    c := intersect.material.diffuse;
  }

  /** `object.ray_intersect` copies the object's material into every hit
      it reports. */
  ghost predicate CopiesMaterial(rayIntersect: Intersector) {
    forall s, o, d :: rayIntersect(s, o, d).isIntersecting ==> rayIntersect(s, o, d).material == s.material
  }

  /** When hit records carry their sphere's material, a ray that hits
      something is coloured with the diffuse colour of a sphere it hits. */
  lemma WinnerIsObjectMaterial(objects: seq<Sphere>, rayIntersect: Intersector, origin: Vec3, direction: Vec3)
    requires CopiesMaterial(rayIntersect)
    requires AnyHit(HitsAlong(objects, rayIntersect, origin, direction))
    ensures exists i ::
      && 0 <= i < |objects|
      && rayIntersect(objects[i], origin, direction).isIntersecting
      && Shade(HitsAlong(objects, rayIntersect, origin, direction)) == objects[i].material.diffuse
  {
    var hits := HitsAlong(objects, rayIntersect, origin, direction);
    var i := NearestIndex(hits);
    assert hits[i] == rayIntersect(objects[i], origin, direction);
  }

  /** Horizontal normalized screen coordinate of column x: 2x/width - 1. */
  function ScreenX(x: nat, width: nat): (sx: real)
    requires x < width
    ensures -1.0 <= sx < 1.0
    ensures x == 0 ==> sx == -1.0
  {
    (2.0 * x as real) / width as real - 1.0
  }

  /** Vertical normalized screen coordinate of row y: 1 - 2y/height, so
      row 0 is the top of the screen. */
  function ScreenY(y: nat, height: nat): (sy: real)
    requires y < height
    ensures -1.0 < sy <= 1.0
    ensures y == 0 ==> sy == 1.0
  {
    -(2.0 * y as real) / height as real + 1.0
  }

  /** Columns further right map further right; rows further down map
      further down. */
  lemma ScreenMappingMonotone(a: nat, b: nat, n: nat)
    requires a < b < n
    ensures ScreenX(a, n) < ScreenX(b, n)
    ensures ScreenY(a, n) > ScreenY(b, n)
  {
    var d := n as real;
    assert (2.0 * a as real) / d < (2.0 * b as real) / d by {
      assert 2.0 * a as real < 2.0 * b as real;
    }
  }

  /** The eye position and `basis_change` of the camera, whose basis
      construction is not part of this model. */
  datatype Camera = Camera(eye: Vec3, basisChange: Vec3 -> Vec3)

  function Abs(r: real): real {
    if r < 0.0 then -r else r
  }

  /** The camera-space ray through pixel (x, y), before normalizing: the
      screen coordinates scaled by the aspect ratio and by `perspectiveScale`
      (tan of half the field of view), at depth -1. It stays inside the view
      frustum, and the top row and left column reach its edges. */
  function CameraRay(x: nat, y: nat, width: nat, height: nat, perspectiveScale: real): (v: Vec3)
    requires x < width && y < height
    ensures v.z == -1.0
    ensures Abs(v.x) <= (width as real / height as real) * Abs(perspectiveScale)
    ensures Abs(v.y) <= Abs(perspectiveScale)
    ensures x == 0 ==> v.x == -(width as real / height as real) * perspectiveScale
    ensures y == 0 ==> v.y == perspectiveScale
  {
    var aspectRatio := width as real / height as real;
    var screenX := ScreenX(x, width) * aspectRatio * perspectiveScale;
    var screenY := ScreenY(y, height) * perspectiveScale;
    ScaledWithin(ScreenX(x, width), aspectRatio, perspectiveScale);
    ScaledWithin(ScreenY(y, height), 1.0, perspectiveScale);
    Vec3(screenX, screenY, -1.0)
  }

  /** A factor in [-1, 1] does not enlarge the magnitude of a * s. */
  lemma ScaledWithin(f: real, a: real, s: real)
    requires -1.0 <= f <= 1.0 && a >= 0.0
    ensures Abs(f * a * s) <= a * Abs(s)
  {
    var t := a * s;
    assert f * a * s == f * t;
    assert Abs(t) == a * Abs(s) by {
      if s < 0.0 { NonNegProduct(a, -s); assert a * -s == -t; } else { NonNegProduct(a, s); }
    }
    FactorWithin(f, t);
  }

  lemma FactorWithin(f: real, t: real)
    requires -1.0 <= f <= 1.0
    ensures Abs(f * t) <= Abs(t)
  {
    var m := Abs(t);
    NonNegProduct(1.0 - f, m);
    NonNegProduct(1.0 + f, m);
    assert (1.0 - f) * m == m - f * m;
    assert (1.0 + f) * m == m + f * m;
    if t >= 0.0 {
      assert f * t == f * m;
    } else {
      assert f * t == -(f * m);
    }
  }

  lemma NonNegProduct(p: real, q: real)
    requires p >= 0.0 && q >= 0.0
    ensures p * q >= 0.0
  {
  }

  /** The world-space direction of the ray through pixel (x, y): the
      camera-space ray, normalized and turned into world space. */
  function RayDirection(x: nat, y: nat, width: nat, height: nat, camera: Camera,
                        normalize: Vec3 -> Vec3, perspectiveScale: real): Vec3
    requires x < width && y < height
  {
    camera.basisChange(normalize(CameraRay(x, y, width, height, perspectiveScale)))
  }

  /** The colour pixel (x, y) should get. */
  ghost function PixelColor(x: nat, y: nat, width: nat, height: nat, objects: seq<Sphere>, rayIntersect: Intersector,
                            camera: Camera, normalize: Vec3 -> Vec3, perspectiveScale: real): Color
    requires x < width && y < height
  {
    Shade(HitsAlong(objects, rayIntersect, camera.eye,
                    RayDirection(x, y, width, height, camera, normalize, perspectiveScale)))
  }

  /** `render`: visits the pixels row by row from the top, each row from the
      left, sets the current colour to the pixel's ray colour and plots it.
      Afterwards every pixel holds its ray's colour, the pixels were plotted
      in row-major order, each once, and the current colour is the last
      pixel's. */
  method Render(fb: Framebuffer, objects: seq<Sphere>, rayIntersect: Intersector, camera: Camera,
                normalize: Vec3 -> Vec3, perspectiveScale: real)
    requires fb.Valid()
    modifies fb, fb.pixels
    ensures forall x, y :: 0 <= x < fb.width && 0 <= y < fb.height ==>
      fb.pixels[x, y] == PixelColor(x, y, fb.width, fb.height, objects, rayIntersect, camera, normalize, perspectiveScale)
    ensures fb.Valid()
    ensures fb.plotted == old(fb.plotted) + RowMajor(fb.width, fb.height)
    ensures forall p: Pixel :: multiset(fb.plotted[|old(fb.plotted)|..])[p] == if InGrid(p, fb.width, fb.height) then 1 else 0
    ensures fb.width == 0 || fb.height == 0 ==> fb.currentColor == old(fb.currentColor)
    ensures fb.width > 0 && fb.height > 0 ==>
      fb.currentColor == PixelColor(fb.width - 1, fb.height - 1, fb.width, fb.height, objects, rayIntersect, camera, normalize, perspectiveScale)
  {
    var width, height := fb.width, fb.height;
    for y := 0 to height
      invariant forall i, j :: 0 <= i < width && 0 <= j < y ==>
        fb.pixels[i, j] == PixelColor(i, j, width, height, objects, rayIntersect, camera, normalize, perspectiveScale)
      invariant fb.plotted == old(fb.plotted) + RowMajor(width, y)
      invariant width == 0 || y == 0 ==> fb.currentColor == old(fb.currentColor)
      invariant width > 0 && y > 0 ==>
        fb.currentColor == PixelColor(width - 1, y - 1, width, height, objects, rayIntersect, camera, normalize, perspectiveScale)
    {
      RenderRow(fb, y, objects, rayIntersect, camera, normalize, perspectiveScale);
    }
    RowMajorVisitsEachOnce(width, height);
    assert fb.plotted[|old(fb.plotted)|..] == RowMajor(width, height);
  }

  /** The inner loop of `render` for row y: every pixel of the row gets its
      ray's colour, left to right; the other rows are untouched. */
  method RenderRow(fb: Framebuffer, y: nat, objects: seq<Sphere>, rayIntersect: Intersector, camera: Camera,
                   normalize: Vec3 -> Vec3, perspectiveScale: real)
    requires fb.Valid() && y < fb.height
    modifies fb, fb.pixels
    ensures fb.Valid()
    ensures forall i, j :: 0 <= i < fb.width && 0 <= j < fb.height && j != y ==> fb.pixels[i, j] == old(fb.pixels[i, j])
    ensures forall i :: 0 <= i < fb.width ==>
      fb.pixels[i, y] == PixelColor(i, y, fb.width, fb.height, objects, rayIntersect, camera, normalize, perspectiveScale)
    ensures fb.plotted == old(fb.plotted) + Row(y, fb.width)
    ensures fb.width == 0 ==> fb.currentColor == old(fb.currentColor)
    ensures fb.width > 0 ==>
      fb.currentColor == PixelColor(fb.width - 1, y, fb.width, fb.height, objects, rayIntersect, camera, normalize, perspectiveScale)
  {
    var width, height := fb.width, fb.height;
    for x := 0 to width
      invariant forall i, j :: 0 <= i < width && 0 <= j < height && j != y ==> fb.pixels[i, j] == old(fb.pixels[i, j])
      invariant forall i :: 0 <= i < x ==>
        fb.pixels[i, y] == PixelColor(i, y, width, height, objects, rayIntersect, camera, normalize, perspectiveScale)
      invariant fb.plotted == old(fb.plotted) + Row(y, x)
      invariant x == 0 ==> fb.currentColor == old(fb.currentColor)
      invariant x > 0 ==>
        fb.currentColor == PixelColor(x - 1, y, width, height, objects, rayIntersect, camera, normalize, perspectiveScale)
    {
      var direction := RayDirection(x, y, width, height, camera, normalize, perspectiveScale);
      var pixelColor := CastRay(camera.eye, direction, objects, rayIntersect);
      fb.SetCurrentColor(pixelColor);
      fb.Point(x, y);
      assert Row(y, x + 1) == Row(y, x) + [(x, y)];
    }
  }
}
