/** What the animation consists of once drawing is abstracted away: the
    contour levels, the map viewport, one frame per processed record with
    its title, the frame interval and the GIF frame rate, and the path the
    GIF is saved to. Drawing (`contourf`, `quiver`, the shapefile outline)
    and the Pillow encoder are one abstract function from this description
    to the bytes of the file, or to a failure. */
module Render {
  import opened Outcomes
  import opened Clock
  import opened Text
  import opened TimeFormat
  import opened Fields

  /** `np.arange(start, stop, step)` for `step > 0`: the values
      `start + k * step` for `k = 0, 1, ...` that stay below `stop`. */
  function Arange(start: real, stop: real, step: real): (r: seq<real>)
    requires step > 0.0
    ensures forall k :: 0 <= k < |r| ==> r[k] == start + k as real * step
  {
    seq(ArangeCount(start, stop, step), k => start + k as real * step)
  }

  /** `ceil((stop - start) / step)`, and no less than 0. */
  function ArangeCount(start: real, stop: real, step: real): (n: nat)
    requires step > 0.0
    ensures start + n as real * step >= stop
    ensures n > 0 ==> start + (n - 1) as real * step < stop
  {
    var q := (stop - start) / step;
    if q <= 0.0 then 0
    else
      var f := q.Floor;
      assert f as real <= q < f as real + 1.0;
      var n := if f as real == q then f else f + 1;
      ArangeBounds(start, stop, step, q, n);
      n
  }

  /** A count `n` with `n - 1 < (stop - start) / step <= n` puts the
      `n`-th point at or past `stop` and the one before it below. */
  lemma ArangeBounds(start: real, stop: real, step: real, q: real, n: int)
    requires step > 0.0 && q == (stop - start) / step
    requires (n - 1) as real < q <= n as real
    ensures start + n as real * step >= stop
    ensures start + (n - 1) as real * step < stop
  {
    var below, above := (n - 1) as real, n as real;
    assert stop - start == q * step;
    MulStrict(below, q, step);
    MulMono(q, above, step);
    assert below * step < stop - start <= above * step;
  }

  lemma MulMono(a: real, b: real, c: real)
    requires a <= b && c > 0.0
    ensures a * c <= b * c
  {
  }

  lemma MulStrict(a: real, b: real, c: real)
    requires a < b && c > 0.0
    ensures a * c < b * c
  {
  }

  /** The values `np.arange` yields are exactly the points of the
      progression below `stop`. */
  lemma ArangeMembers(start: real, stop: real, step: real, k: nat)
    requires step > 0.0
    ensures start + k as real * step < stop <==> k < |Arange(start, stop, step)|
  {
    var n := ArangeCount(start, stop, step);
    assert |Arange(start, stop, step)| == n;
    if k < n {
      MulMono(k as real, (n - 1) as real, step);
      assert start + (n - 1) as real * step < stop;
    } else {
      MulMono(n as real, k as real, step);
      assert start + n as real * step >= stop;
    }
  }

  /** The contour levels of the temperature plot and its colour bar. */
  function Levels(): seq<real> {
    Arange(-5.0, 10.0, 0.5)
  }

  /** The levels run from -5.0 to 9.5 in steps of 0.5: thirty of them,
      strictly increasing and all below 10.0. */
  lemma LevelsValues()
    ensures |Levels()| == 30
    ensures Levels()[0] == -5.0 && Levels()[29] == 9.5
    ensures forall k :: 0 <= k < 29 ==> Levels()[k + 1] == Levels()[k] + 0.5
    ensures forall k :: 0 <= k < 30 ==> Levels()[k] < 10.0
  {
    assert ArangeCount(-5.0, 10.0, 0.5) == 30;
  }

  datatype Viewport = Viewport(xMin: real, xMax: real, yMin: real, yMax: real)

  /** `set_xlim(128.88, 129.6)` and `set_ylim(35.82, 36.35)`: the Pohang
      area in degrees of longitude and latitude. */
  const Pohang: Viewport := Viewport(128.88, 129.6, 35.82, 36.35)

  /** One animation frame: the record it draws, its title, the contour
      levels and the axis limits. */
  datatype Frame = Frame(data: Record, title: string, levels: seq<real>, view: Viewport)

  /** The colour bar drawn once from the first record's contour plot. */
  datatype Colorbar = Colorbar(data: Record, levels: seq<real>, caption: string)

  /** A `FuncAnimation` saved with `writer='pillow'`. */
  datatype Animation = Animation(colorbar: Option<Colorbar>, frames: seq<Frame>, intervalMs: nat, fps: nat)

  const IntervalMs: nat := 2000
  const Fps: nat := 2

  type Bytes = seq<bv8>

  /** The plotting library. `drawColorbar` says whether `contourf` and
      `plt.colorbar` succeed on the colour bar drawn before the animation
      is built; `save` draws every frame and encodes the GIF, giving the
      bytes written, or `None` where `ani.save` raises. */
  datatype Renderer = Renderer(drawColorbar: Colorbar -> bool, save: Animation -> Option<Bytes>)

  /** The frames of `update(frame)` for `frame` in `range(len(records))`:
      record `i` titled `titles[i]`, all with the same levels and viewport. */
  function Frames(records: seq<Record>, titles: seq<string>): (r: seq<Frame>)
    requires |titles| == |records|
    ensures |r| == |records|
    ensures forall i :: 0 <= i < |r| ==> r[i].data == records[i] && r[i].title == titles[i]
    ensures forall i :: 0 <= i < |r| ==> r[i].levels == Levels() && r[i].view == Pohang
  {
    if records == [] then []
    else [Frame(records[0], titles[0], Levels(), Pohang)] + Frames(records[1..], titles[1..])
  }

  // ---------------------------------------------------------------------
  // Output path

  /** `os.path.join(dir, name)` for a relative `name`. */
  function JoinPath(dir: string, name: string): (r: string)
    ensures EndsWith(r, name)
  {
    if dir == [] || dir[|dir| - 1] == '/' then dir + name else dir + "/" + name
  }

  /** The last component of a path: what `Path(p).name` gives when `p`
      does not end in `/`. */
  function BaseName(p: string): (r: string)
    ensures '/' !in r
    ensures EndsWith(p, r)
    decreases |p|
  {
    if p == [] then []
    else if p[|p| - 1] == '/' then []
    else
      var b := BaseName(p[..|p| - 1]);
      assert p == p[..|p| - 1] + [p[|p| - 1]];
      b + [p[|p| - 1]]
  }

  /** A file name joined to a directory is recovered by `BaseName`. */
  lemma {:induction false} BaseNameOfJoin(dir: string, name: string)
    requires name != [] && '/' !in name
    ensures BaseName(JoinPath(dir, name)) == name
  {
    var p := JoinPath(dir, name);
    var sep := if dir == [] || dir[|dir| - 1] == '/' then dir else dir + "/";
    assert p == sep + name;
    BaseNameOfSuffix(sep, name);
  }

  lemma BaseNameOfSuffix(sep: string, name: string)
    requires sep == [] || sep[|sep| - 1] == '/'
    requires '/' !in name
    ensures BaseName(sep + name) == name
  {
    SlashFreeTail(sep, name);
    BaseNameAfter(sep + name, |sep|);
  }

  lemma SlashFreeTail(sep: string, name: string)
    requires '/' !in name
    ensures (sep + name)[|sep|..] == name
    ensures forall i :: |sep| <= i < |sep + name| ==> (sep + name)[i] != '/'
  {
    var p, k := sep + name, |sep|;
    forall i | k <= i < |p| ensures p[i] != '/' {
      assert p[i] == name[i - k] && name[i - k] in name;
    }
    assert p[k..] == name;
  }

  /** Everything after the last `/` (at index `k - 1`) is the base name. */
  lemma {:induction false} BaseNameAfter(p: string, k: nat)
    requires k <= |p| && (k == 0 || p[k - 1] == '/')
    requires forall i :: k <= i < |p| ==> p[i] != '/'
    ensures BaseName(p) == p[k..]
    decreases |p|
  {
    if k < |p| {
      var q := p[..|p| - 1];
      BaseNameAfter(q, k);
      assert p[k..] == q[k..] + [p[|p| - 1]];
    }
  }

  /** `wrf_animation_{first:%Y%m%d_%H%M}_{last:%Y%m%d_%H%M}.gif`. */
  function AnimationName(first: DateTime, last: DateTime): (r: string)
    requires Valid(first) && Valid(last)
    ensures StartsWith(r, "wrf_animation_") && EndsWith(r, ".gif")
  {
    var r := "wrf_animation_" + (CompactStamp(first) + ("_" + (CompactStamp(last) + ".gif")));
    assert r[..14] == "wrf_animation_";
    assert r[|r| - 4..] == ".gif";
    r
  }

  /** Two requests whose first and last times agree to the minute write
      the same file, and a differing minute gives a different file. */
  lemma AnimationNameDetermines(a1: DateTime, b1: DateTime, a2: DateTime, b2: DateTime)
    requires Valid(a1) && Valid(b1) && Valid(a2) && Valid(b2)
    ensures AnimationName(a1, b1) == AnimationName(a2, b2) <==>
      CompactStamp(a1) == CompactStamp(a2) && CompactStamp(b1) == CompactStamp(b2)
  {
    var s1, s2 := CompactStamp(a1), CompactStamp(a2);
    var t1, t2 := CompactStamp(b1), CompactStamp(b2);
    if AnimationName(a1, b1) == AnimationName(a2, b2) {
      ConcatCancel("wrf_animation_", s1 + ("_" + (t1 + ".gif")), "wrf_animation_", s2 + ("_" + (t2 + ".gif")));
      ConcatCancel(s1, "_" + (t1 + ".gif"), s2, "_" + (t2 + ".gif"));
      ConcatCancel("_", t1 + ".gif", "_", t2 + ".gif");
      ConcatCancel(t1, ".gif", t2, ".gif");
    }
  }

  /** A GIF path never ends like a `.nc` temporary file. */
  lemma GifIsNotNc(p: string)
    requires EndsWith(p, ".gif")
    ensures !EndsWith(p, ".nc")
  {
    assert p[|p| - 1] == 'f';
  }
}
