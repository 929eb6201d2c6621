/** The kernel's logo decoder: which blobs it accepts, what it draws, and that it
    undoes the encoder. */
module LogoDecoder {
  import opened Seqs
  import opened FirmwareBytes
  import opened RunLength

  datatype Status =
    | BadHeader
    | BadGeometry
    | ZeroRun
    | TooManyPixels
    | Truncated
    | TrailingBytes
    | BufferTooSmall

  datatype Geometry = Geometry(width: nat, height: nat)
  datatype Result<T> = Ok(value: T) | Err(status: Status)

  function ReadGeometry(blob: seq<Byte>): Result<Geometry> {
    if |blob| < HEADER_SIZE || blob[..4] != [0x53, 0x52, 0x4C, 0x31] then Err(BadHeader)
    else
      var width, height := U16(blob, 4), U16(blob, 6);
      if width == 0 || height == 0 || width > MAX_DIMENSION || height > MAX_DIMENSION then Err(BadGeometry)
      else Ok(Geometry(width, height))
  }

  /** The runs from offset on, which must describe exactly the remaining pixels and
      end where the blob ends. */
  function ParseRuns(blob: seq<Byte>, offset: nat, remaining: nat): Result<seq<Run>>
    decreases remaining
  {
    if remaining == 0 then
      if offset == |blob| then Ok([]) else Err(TrailingBytes)
    else if offset + RUN_SIZE > |blob| then Err(Truncated)
    else if blob[offset] == 0 then Err(ZeroRun)
    else if blob[offset] > remaining then Err(TooManyPixels)
    else
      match ParseRuns(blob, offset + RUN_SIZE, remaining - blob[offset])
      case Err(status) => Err(status)
      case Ok(rs) => Ok([RunAt(blob, offset)] + rs)
  }

  function RunAt(blob: seq<Byte>, offset: nat): Run
    requires offset + RUN_SIZE <= |blob|
  {
    Run(Rgba(blob[offset + 1], blob[offset + 2], blob[offset + 3], blob[offset + 4]), blob[offset])
  }

  /** What a blob decodes to, for a buffer of capacity pixels. */
  function Decode(blob: seq<Byte>, capacity: nat): Result<(Geometry, seq<Run>)> {
    match ReadGeometry(blob)
    case Err(status) => Err(status)
    case Ok(g) =>
      if capacity < g.width * g.height then Err(BufferTooSmall)
      else match ParseRuns(blob, HEADER_SIZE, g.width * g.height)
        case Err(status) => Err(status)
        case Ok(rs) => Ok((g, rs))
  }

  /** Which headers are accepted and what each refusal means: eight bytes that begin with the mark
      "SRL1", then width and height between 1 and 1024. */
  lemma GeometryExactly(blob: seq<Byte>)
    ensures var r := ReadGeometry(blob);
      var marked := |blob| >= 8 && blob[0] == 0x53 && blob[1] == 0x52 && blob[2] == 0x4C && blob[3] == 0x31;
      && (r == Err(BadHeader) <==> !marked)
      && (marked ==>
            var width, height := blob[4] as nat + 0x100 * blob[5] as nat, blob[6] as nat + 0x100 * blob[7] as nat;
            r == if 1 <= width <= 1024 && 1 <= height <= 1024 then Ok(Geometry(width, height)) else Err(BadGeometry))
  {
    FieldBytes(blob, 4);
    FieldBytes(blob, 6);
    if |blob| >= 4 {
      var mark := [0x53, 0x52, 0x4C, 0x31];
      assert blob[..4] == mark <==>
        blob[0] == mark[0] && blob[1] == mark[1] && blob[2] == mark[2] && blob[3] == mark[3];
    }
  }

  /** After whole runs rs, none empty and not too many pixels in all, the blob goes wrong in
      just this way. */
  ghost predicate GoesWrong(blob: seq<Byte>, offset: nat, remaining: nat, rs: seq<Run>, status: Status) {
    var at := offset + 5 * |rs|;
    && WellFormed(rs) && at <= |blob| && Body(rs) == blob[offset..at] && |Expand(rs)| <= remaining
    && var left := remaining - |Expand(rs)|;
       if left == 0 then at < |blob| && status == TrailingBytes
       else if at + 5 > |blob| then status == Truncated
       else if blob[at] == 0 then status == ZeroRun
       else blob[at] > left && status == TooManyPixels
  }

  lemma {:induction false} ParseRefusal(blob: seq<Byte>, offset: nat, remaining: nat, status: Status)
    returns (rs: seq<Run>)
    requires offset <= |blob| && ParseRuns(blob, offset, remaining) == Err(status)
    ensures GoesWrong(blob, offset, remaining, rs, status)
    decreases remaining
  {
    hide WellFormed, Expand, Repeat;
    rs := [];
    NoRuns();
    if remaining > 0 && offset + RUN_SIZE <= |blob| && 0 < blob[offset] <= remaining {
      var r := RunAt(blob, offset);
      var rest := ParseRefusal(blob, offset + RUN_SIZE, remaining - blob[offset], status);
      rs := [r] + rest;
      ExpandFirst(r, rest);
      WellFormedFirst(r, rest);
      Bounded(rs);
      BodyFirst(r, rest);
      var at := offset + RUN_SIZE + 5 * |rest|;
      assert blob[offset..at] == RunBytes(r) + blob[offset + RUN_SIZE..at];
    }
  }

  lemma BodyFirst(r: Run, rs: seq<Run>)
    requires WellFormed([r] + rs) && WellFormed(rs) && r.count < 256
    ensures Body([r] + rs) == RunBytes(r) + Body(rs)
  {
    assert ([r] + rs)[1..] == rs;
    assert ([r] + rs)[0] == r;
  }

  // ----- parsing and printing undo each other -----

  lemma {:induction false} ExpandFirst(r: Run, rs: seq<Run>)
    ensures Expand([r] + rs) == Repeat(r.pixel, r.count) + Expand(rs)
    decreases |rs|
  {
    var all := [r] + rs;
    if rs == [] {
      assert all == [] + [r];
      ExpandNext([], r);
    } else {
      var n := |rs| - 1;
      assert all[..|all| - 1] == [r] + rs[..n];
      ExpandFirst(r, rs[..n]);
    }
  }

  lemma WellFormedFirst(r: Run, rs: seq<Run>)
    ensures WellFormed([r] + rs) <==> 1 <= r.count <= MAX_RUN && WellFormed(rs)
  {
    var all := [r] + rs;
    if WellFormed(all) {
      assert all[0] == r;
      forall i | 0 <= i < |rs| ensures 1 <= rs[i].count <= MAX_RUN { assert all[i + 1] == rs[i]; }
    }
  }

  /** Whatever is accepted is the printed form of runs that fill exactly the pixels asked for. */
  lemma {:induction false} ParsedIsPrinted(blob: seq<Byte>, offset: nat, remaining: nat)
    requires offset <= |blob| && ParseRuns(blob, offset, remaining).Ok?
    ensures var rs := ParseRuns(blob, offset, remaining).value;
      WellFormed(rs) && |Expand(rs)| == remaining && blob[offset..] == Body(rs)
    decreases remaining
  {
    hide WellFormed, Expand, Repeat;
    if remaining == 0 {
      NoRuns();
    } else {
      var r := RunAt(blob, offset);
      ParsedIsPrinted(blob, offset + RUN_SIZE, remaining - blob[offset]);
      var rest := ParseRuns(blob, offset + RUN_SIZE, remaining - blob[offset]).value;
      ExpandFirst(r, rest);
      WellFormedFirst(r, rest);
      Bounded([r] + rest);
      assert ([r] + rest)[1..] == rest;
      assert blob[offset..] == RunBytes(r) + blob[offset + RUN_SIZE..];
    }
  }

  lemma NoRuns()
    ensures WellFormed([]) && Expand([]) == []
  {
  }

  lemma Bounded(rs: seq<Run>)
    requires WellFormed(rs)
    ensures forall i :: 0 <= i < |rs| ==> 1 <= rs[i].count < 256
  {
  }

  /** And every such printed form is accepted, as those runs. */
  lemma {:induction false} PrintedIsParsed(blob: seq<Byte>, offset: nat, rs: seq<Run>)
    requires offset <= |blob| && WellFormed(rs) && blob[offset..] == Body(rs)
    ensures ParseRuns(blob, offset, |Expand(rs)|) == Ok(rs)
    decreases |rs|
  {
    hide Expand;
    if rs == [] {
      NoRuns();
    } else {
      var r, rest := rs[0], rs[1..];
      assert rs == [r] + rest;
      ExpandFirst(r, rest);
      var tail := blob[offset..];
      assert tail == RunBytes(r) + Body(rest);
      assert tail[..RUN_SIZE] == RunBytes(r) && tail[RUN_SIZE..] == Body(rest);
      assert blob[offset + RUN_SIZE..] == Body(rest);
      PrintedIsParsed(blob, offset + RUN_SIZE, rest);
      assert forall k :: 0 <= k < RUN_SIZE ==> blob[offset + k] == tail[k];
      assert RunAt(blob, offset) == r;
    }
  }

  // ----- the whole image -----

  function Blob(width: nat, height: nat, body: seq<Byte>): seq<Byte> {
    [0x53, 0x52, 0x4C, 0x31] + Le16(width) + Le16(height) + body
  }

  lemma BlobHeader(width: nat, height: nat, body: seq<Byte>)
    requires 1 <= width <= MAX_DIMENSION && 1 <= height <= MAX_DIMENSION
    ensures ReadGeometry(Blob(width, height, body)) == Ok(Geometry(width, height))
    ensures Blob(width, height, body)[HEADER_SIZE..] == body
  {
    var blob := Blob(width, height, body);
    assert blob[4..6] == Le16(width) && blob[6..8] == Le16(height);
    Reads16(blob, 4, width);
    Reads16(blob, 6, height);
  }

  /** Decoding undoes encoding: the kernel draws back every pixel of the artwork. */
  lemma DecodeUndoesEncode(width: nat, height: nat, ps: seq<Rgba>, capacity: nat)
    requires 1 <= width <= MAX_DIMENSION && 1 <= height <= MAX_DIMENSION
    requires |ps| == width * height <= capacity
    ensures WellFormed(Greedy(ps))
    ensures Decode(Blob(width, height, Body(Greedy(ps))), capacity) == Ok((Geometry(width, height), Greedy(ps)))
    ensures Expand(Greedy(ps)) == ps
  {
    hide Greedy, Expand, ParseRuns, ReadGeometry, Blob, WellFormed;
    GreedyEncodes(ps);
    Bounded(Greedy(ps));
    var body := Body(Greedy(ps));
    BlobHeader(width, height, body);
    BlobSize(width, height, body);
    PrintedIsParsed(Blob(width, height, body), HEADER_SIZE, Greedy(ps));
  }

  /** The build's raw picture, four bytes a pixel, comes back from the encoder's blob byte by byte. */
  lemma BytesComeBack(width: nat, height: nat, bytes: seq<Byte>, capacity: nat) returns (rs: seq<Run>)
    requires 1 <= width <= MAX_DIMENSION && 1 <= height <= MAX_DIMENSION
    requires |bytes| == 4 * (width * height) && width * height <= capacity
    ensures var ps := Pixels(bytes, width * height);
      && WellFormed(Greedy(ps))
      && Decode(Blob(width, height, Body(Greedy(ps))), capacity) == Ok((Geometry(width, height), rs))
    ensures |Expand(rs)| == width * height
    ensures forall i :: 0 <= i < width * height ==>
      var pixel := Expand(rs)[i];
      [pixel.red, pixel.green, pixel.blue, pixel.alpha] == bytes[4 * i..4 * i + 4]
  {
    hide Greedy, Expand, Decode, Blob, WellFormed, Body;
    var ps := Pixels(bytes, width * height);
    DecodeUndoesEncode(width, height, ps, capacity);
    rs := Greedy(ps);
  }

  lemma BlobSize(width: nat, height: nat, body: seq<Byte>)
    ensures |Blob(width, height, body)| == HEADER_SIZE + |body|
  {
  }

  function Prepend(done: seq<Run>, rest: Result<seq<Run>>): Result<seq<Run>> {
    match rest
    case Err(status) => Err(status)
    case Ok(rs) => Ok(done + rs)
  }

  lemma PrependNext(done: seq<Run>, blob: seq<Byte>, offset: nat, remaining: nat)
    requires offset + RUN_SIZE <= |blob| && 0 < blob[offset] <= remaining
    ensures Prepend(done, ParseRuns(blob, offset, remaining)) ==
      Prepend(done + [RunAt(blob, offset)], ParseRuns(blob, offset + RUN_SIZE, remaining - blob[offset]))
  {
    var rest := ParseRuns(blob, offset + RUN_SIZE, remaining - blob[offset]);
    if rest.Ok? {
      var r := RunAt(blob, offset);
      assert done + ([r] + rest.value) == done + [r] + rest.value;
    }
  }

  lemma PrependNone(rest: Result<seq<Run>>)
    ensures Prepend([], rest) == rest
  {
    if rest.Ok? { assert [] + rest.value == rest.value; }
  }

  /** The first pixels of the buffer show the runs. */
  ghost predicate Shows<W>(pixels: seq<W>, rs: seq<Run>, pack: Rgba -> W) {
    |pixels| == |Expand(rs)| && forall i :: 0 <= i < |pixels| ==> pixels[i] == pack(Expand(rs)[i])
  }

  lemma ShowsNext<W>(pixels: seq<W>, rs: seq<Run>, pack: Rgba -> W, r: Run, more: seq<W>)
    requires Shows(pixels, rs, pack)
    requires |more| == r.count && forall i :: 0 <= i < |more| ==> more[i] == pack(r.pixel)
    ensures Shows(pixels + more, rs + [r], pack)
  {
    hide Expand;
    ExpandNext(rs, r);
  }

  lemma ShowsNone<W>(pack: Rgba -> W)
    ensures Shows([], [], pack)
  {
  }

  /** The decoder's loop. A refusal may leave part of the image drawn; success draws
      exactly the declared pixels and touches nothing after them. */
  method DrawRuns<W>(blob: seq<Byte>, pixels: nat, out: array<W>, pack: Rgba -> W) returns (error: Option<Status>)
    requires pixels <= out.Length && HEADER_SIZE <= |blob|
    modifies out
    ensures out[pixels..] == old(out[pixels..])
    ensures match ParseRuns(blob, HEADER_SIZE, pixels)
      case Err(status) => error == Some(status)
      case Ok(rs) => error == None && Shows(out[..pixels], rs, pack)
  {
    hide Shows, Prepend, RunAt;
    ghost var whole, done := ParseRuns(blob, HEADER_SIZE, pixels), [];
    var written, offset := 0, HEADER_SIZE;
    PrependNone(whole);
    ShowsNone(pack);
    assert out[..0] == [];
    while written < pixels
      invariant written <= pixels && HEADER_SIZE <= offset <= |blob|
      invariant Shows(out[..written], done, pack)
      invariant out[pixels..] == old(out[pixels..])
      invariant whole == Prepend(done, ParseRuns(blob, offset, pixels - written))
      decreases pixels - written
    {
      PrependErr(done, ParseRuns(blob, offset, pixels - written));
      if offset + RUN_SIZE > |blob| {
        return Some(Truncated);
      }
      var count := blob[offset];
      if count == 0 {
        return Some(ZeroRun);
      }
      if count > pixels - written {
        return Some(TooManyPixels);
      }
      PrependNext(done, blob, offset, pixels - written);
      var r := RunAt(blob, offset);
      assert r.count == count by { RunCount(blob, offset); }
      ghost var before := out[..written];
      Paint(out, written, count, pack(r.pixel));
      ShowsNext(before, done, pack, r, out[written..written + count]);
      assert out[..written + count] == before + out[written..written + count];
      done := done + [r];
      written := written + count;
      offset := offset + RUN_SIZE;
    }
    PrependErr(done, ParseRuns(blob, offset, 0));
    if offset != |blob| {
      return Some(TrailingBytes);
    }
    assert done + [] == done;
    return None;
  }

  lemma RunCount(blob: seq<Byte>, offset: nat)
    requires offset + RUN_SIZE <= |blob|
    ensures RunAt(blob, offset).count == blob[offset]
  {
  }

  lemma PrependErr(done: seq<Run>, rest: Result<seq<Run>>)
    ensures rest.Err? ==> Prepend(done, rest) == Err(rest.status)
    ensures rest.Ok? ==> Prepend(done, rest) == Ok(done + rest.value)
  {
  }

  method DecodeInto<W>(blob: seq<Byte>, out: array<W>, pack: Rgba -> W) returns (result: Result<Geometry>)
    modifies out
    ensures result == match Decode(blob, out.Length)
      case Err(status) => Err(status)
      case Ok((g, _)) => Ok(g)
    ensures match Decode(blob, out.Length)
      case Err(_) => true
      case Ok((g, rs)) =>
        var pixels := g.width * g.height;
        pixels <= out.Length && Shows(out[..pixels], rs, pack) && out[pixels..] == old(out[pixels..])
  {
    hide Shows, ParseRuns;
    var header := ReadGeometry(blob);
    if header.Err? {
      return Err(header.status);
    }
    var g := header.value;
    var pixels := g.width * g.height;
    if out.Length < pixels {
      return Err(BufferTooSmall);
    }
    var error := DrawRuns(blob, pixels, out, pack);
    if error.Some? {
      return Err(error.value);
    }
    return Ok(g);
  }

  method Paint<W>(out: array<W>, from: nat, count: nat, packed: W)
    requires from + count <= out.Length
    modifies out
    ensures forall i :: 0 <= i < out.Length ==>
      out[i] == if from <= i < from + count then packed else old(out[i])
  {
    var k := from;
    while k < from + count
      invariant from <= k <= from + count
      invariant forall i :: 0 <= i < out.Length ==> out[i] == if from <= i < k then packed else old(out[i])
    {
      out[k] := packed;
      k := k + 1;
    }
  }

  // ----- blending -----

  /** A channel at weight alpha against the background at the rest, out of 255. */
  function Weighted(channel: Byte, under: Byte, alpha: Byte): int {
    channel as nat * alpha as nat + under as nat * (255 - alpha as nat)
  }

  /** One channel over the background, rounded. */
  function Mix(channel: Byte, under: Byte, alpha: Byte): Byte {
    (Weighted(channel, under, alpha) + 127) / 255 % 256
  }

  /** Opaque pixels are exact, transparent ones leave the background, and every blend
      stays between the two, so the eight-bit mask never cuts anything off. */
  lemma MixBlends(channel: Byte, under: Byte, alpha: Byte)
    ensures alpha == 255 ==> Mix(channel, under, alpha) == channel
    ensures alpha == 0 ==> Mix(channel, under, alpha) == under
    ensures channel <= under ==> channel <= Mix(channel, under, alpha) <= under
    ensures under <= channel ==> under <= Mix(channel, under, alpha) <= channel
  {
    hide Weighted;
    WeightedBetween(channel, under, alpha);
  }

  /** And every blend is the nearest whole level. */
  lemma MixRounds(channel: Byte, under: Byte, alpha: Byte)
    ensures 255 * Mix(channel, under, alpha) as nat - 127 <= Weighted(channel, under, alpha)
    ensures Weighted(channel, under, alpha) <= 255 * Mix(channel, under, alpha) as nat + 127
  {
    hide Weighted;
    WeightedBetween(channel, under, alpha);
  }

  lemma WeightedBetween(channel: Byte, under: Byte, alpha: Byte)
    ensures alpha == 255 ==> Weighted(channel, under, alpha) == 255 * channel
    ensures alpha == 0 ==> Weighted(channel, under, alpha) == 255 * under
    ensures channel <= under ==> 255 * channel <= Weighted(channel, under, alpha) <= 255 * under
    ensures under <= channel ==> 255 * under <= Weighted(channel, under, alpha) <= 255 * channel
  {
    Whole(channel, alpha);
    Whole(under, alpha);
    if channel <= under {
      ScaleOrder(channel, under, alpha);
      ScaleOrder(channel, under, 255 - alpha);
    } else {
      ScaleOrder(under, channel, alpha);
      ScaleOrder(under, channel, 255 - alpha);
    }
  }

  lemma Whole(x: nat, weight: nat)
    requires weight <= 255
    ensures x * weight + x * (255 - weight) == 255 * x
  {
  }

  lemma ScaleOrder(low: nat, high: nat, weight: nat)
    requires low <= high
    ensures low * weight <= high * weight
  {
  }
}
