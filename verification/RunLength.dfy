/** The boot logo as it is built: the greedy run-length encoder. */
module RunLength {
  import opened Seqs
  import opened FirmwareBytes

  const MAX_RUN: nat := 255
  const HEADER_SIZE: nat := 8
  const RUN_SIZE: nat := 5
  const MAX_DIMENSION: nat := 1024

  datatype Rgba = Rgba(red: Byte, green: Byte, blue: Byte, alpha: Byte)
  datatype Run = Run(pixel: Rgba, count: nat)

  function Repeat(p: Rgba, n: nat): (s: seq<Rgba>)
    ensures |s| == n && forall i :: 0 <= i < n ==> s[i] == p
  {
    seq(n, _ => p)
  }

  /** The pixels a list of runs stands for. */
  function Expand(rs: seq<Run>): seq<Rgba>
    decreases |rs|
  {
    if rs == [] then [] else Expand(rs[..|rs| - 1]) + Repeat(rs[|rs| - 1].pixel, rs[|rs| - 1].count)
  }

  ghost predicate WellFormed(rs: seq<Run>) {
    forall i :: 0 <= i < |rs| ==> 1 <= rs[i].count <= MAX_RUN
  }

  ghost predicate Encodes(rs: seq<Run>, ps: seq<Rgba>) {
    WellFormed(rs) && Expand(rs) == ps
  }

  // ----- the greedy encoder -----

  /** One more pixel: lengthen the last run if it can take it, else start a run. */
  function Push(rs: seq<Run>, p: Rgba): seq<Run> {
    var n := |rs| - 1;
    if n >= 0 && rs[n].pixel == p && rs[n].count < MAX_RUN then rs[..n] + [Run(p, rs[n].count + 1)]
    else rs + [Run(p, 1)]
  }

  function Greedy(ps: seq<Rgba>): seq<Run>
    decreases |ps|
  {
    if ps == [] then [] else Push(Greedy(ps[..|ps| - 1]), ps[|ps| - 1])
  }

  lemma ExpandNext(rs: seq<Run>, r: Run)
    ensures Expand(rs + [r]) == Expand(rs) + Repeat(r.pixel, r.count)
  {
    assert (rs + [r])[..|rs|] == rs;
  }

  lemma PushExpands(rs: seq<Run>, p: Rgba)
    requires WellFormed(rs)
    ensures WellFormed(Push(rs, p)) && Expand(Push(rs, p)) == Expand(rs) + [p]
  {
    var n := |rs| - 1;
    if n >= 0 && rs[n].pixel == p && rs[n].count < MAX_RUN {
      ExpandNext(rs[..n], Run(p, rs[n].count + 1));
      assert Repeat(p, rs[n].count + 1) == Repeat(p, rs[n].count) + [p];
    } else {
      ExpandNext(rs, Run(p, 1));
      assert Repeat(p, 1) == [p];
    }
  }

  lemma GreedyNext(ps: seq<Rgba>, p: Rgba)
    ensures Greedy(ps + [p]) == Push(Greedy(ps), p)
  {
    assert (ps + [p])[..|ps|] == ps;
  }

  lemma NothingEncoded()
    ensures Encodes(Greedy([]), [])
  {
  }

  /** Lossless, with every run length in 1..255. */
  lemma {:induction false} GreedyEncodes(ps: seq<Rgba>)
    ensures Encodes(Greedy(ps), ps)
    decreases |ps|
  {
    hide Greedy, Push, Expand, WellFormed;
    if ps == [] {
      NothingEncoded();
    } else {
      var n := |ps| - 1;
      GreedyEncodes(ps[..n]);
      PushExpands(Greedy(ps[..n]), ps[n]);
      assert ps[..n] + [ps[n]] == ps;
      GreedyNext(ps[..n], ps[n]);
    }
  }

  lemma PushLast(done: seq<Run>, r: Run, p: Rgba)
    ensures Push(done + [r], p) ==
      if r.pixel == p && r.count < MAX_RUN then done + [Run(p, r.count + 1)] else done + [r] + [Run(p, 1)]
  {
    assert (done + [r])[..|done|] == done;
  }

  /** Up to 255 more copies of one pixel cost the greedy encoder at most one run. */
  lemma {:induction false} GreedyRepeat(ps: seq<Rgba>, p: Rgba, n: nat)
    requires n <= MAX_RUN
    ensures |Greedy(ps + Repeat(p, n))| <= |Greedy(ps)| + 1
    ensures var g := Greedy(ps + Repeat(p, n));
      |g| == |Greedy(ps)| + 1 ==> g[|g| - 1].pixel == p && g[|g| - 1].count <= n
    decreases n
  {
    hide Greedy, Repeat;
    if n == 0 {
      assert ps + Repeat(p, 0) == ps;
    } else {
      GreedyRepeat(ps, p, n - 1);
      var before := ps + Repeat(p, n - 1);
      GreedyNext(before, p);
      assert ps + Repeat(p, n) == before + [p];
    }
  }

  /** No encoding with runs of at most 255 has fewer runs. */
  lemma {:induction false} GreedyMinimal(ps: seq<Rgba>, rs: seq<Run>)
    requires Encodes(rs, ps)
    ensures |Greedy(ps)| <= |rs|
    decreases |rs|
  {
    if rs != [] {
      var n := |rs| - 1;
      GreedyMinimal(Expand(rs[..n]), rs[..n]);
      GreedyRepeat(Expand(rs[..n]), rs[n].pixel, rs[n].count);
    }
  }

  // ----- the byte stream -----

  function RunBytes(r: Run): (s: seq<Byte>)
    requires r.count < 256
    ensures |s| == RUN_SIZE
  {
    [r.count, r.pixel.red, r.pixel.green, r.pixel.blue, r.pixel.alpha]
  }

  function Body(rs: seq<Run>): seq<Byte>
    requires forall i :: 0 <= i < |rs| ==> rs[i].count < 256
  {
    if rs == [] then [] else RunBytes(rs[0]) + Body(rs[1..])
  }

  lemma {:induction false} BodyNext(rs: seq<Run>, r: Run)
    requires r.count < 256 && forall i :: 0 <= i < |rs| ==> rs[i].count < 256
    ensures Body(rs + [r]) == Body(rs) + RunBytes(r)
    decreases |rs|
  {
    var all := rs + [r];
    if rs == [] {
      assert all[1..] == [];
    } else {
      assert all[1..] == rs[1..] + [r];
      BodyNext(rs[1..], r);
    }
  }

  lemma BodyNone()
    ensures Body([]) == [] && Greedy([]) == []
  {
  }

  lemma PushFirst(p: Rgba)
    ensures Push([], p) == [Run(p, 1)]
  {
  }

  function PixelAt(pixels: seq<Byte>, i: nat): Rgba
    requires 4 * i + 4 <= |pixels|
  {
    Rgba(pixels[4 * i], pixels[4 * i + 1], pixels[4 * i + 2], pixels[4 * i + 3])
  }

  function Pixels(pixels: seq<Byte>, total: nat): (s: seq<Rgba>)
    requires |pixels| == 4 * total
    ensures |s| == total
  {
    seq(total, i requires 0 <= i < total => PixelAt(pixels, i))
  }

  /** The encoder's loop: the run in hand is written out only when it ends. */
  method Encode(pixels: seq<Byte>, total: nat) returns (body: seq<Byte>)
    requires |pixels| == 4 * total
    ensures WellFormed(Greedy(Pixels(pixels, total))) && body == Body(Greedy(Pixels(pixels, total)))
  {
    hide Greedy, Body, Push, RunBytes;
    ghost var ps := Pixels(pixels, total);
    ghost var done: seq<Run> := [];
    var run: Option<Run> := None;
    body := [];
    var index := 0;
    BodyNone();
    while index < total
      invariant index <= total
      invariant WellFormed(done) && body == Body(done)
      invariant run.Some? ==> 1 <= run.value.count <= MAX_RUN
      invariant Greedy(ps[..index]) == done + if run.Some? then [run.value] else []
      invariant run.None? ==> done == []
    {
      var pixel := PixelAt(pixels, index);
      GreedyNext(ps[..index], pixel);
      assert ps[..index + 1] == ps[..index] + [pixel];
      if run.Some? { PushLast(done, run.value, pixel); } else { PushFirst(pixel); }
      if run.Some? && run.value.pixel == pixel && run.value.count < MAX_RUN {
        run := Some(Run(pixel, run.value.count + 1));
      } else {
        if run.Some? {
          BodyNext(done, run.value);
          body := body + RunBytes(run.value);
          done := done + [run.value];
        }
        run := Some(Run(pixel, 1));
      }
      index := index + 1;
    }
    assert ps[..index] == ps;
    if run.Some? {
      BodyNext(done, run.value);
      body := body + RunBytes(run.value);
    }
  }
}
