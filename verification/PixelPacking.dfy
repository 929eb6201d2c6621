/** Packing a blended pixel into a framebuffer word, each channel at a bit position that the
    framebuffer chooses. */
module PixelPacking {
  import opened FirmwareBytes
  import opened RunLength
  import opened LogoDecoder

  /** Where each channel goes, and the packed colour behind the logo. */
  datatype Format = Format(red: bv8, green: bv8, blue: bv8, background: bv32)

  /** Every channel starts inside the word. */
  predicate Sound(f: Format) {
    f.red < 32 && f.green < 32 && f.blue < 32
  }

  /** The eight bits of a word from a position up. */
  function Field(word: bv32, shift: bv8): bv32
    requires shift < 32
  {
    (word >> shift) & 0xFF
  }

  function Channel(word: bv32, shift: bv8): bv8
    requires shift < 32
  {
    Field(word, shift) as bv8
  }

  function At(v: bv8, shift: bv8): bv32
    requires shift < 32
  {
    v as bv32 << shift
  }

  function Join(x: bv32, y: bv32, z: bv32): bv32 {
    x | y | z
  }

  function Pack(red: bv8, green: bv8, blue: bv8, f: Format): bv32
    requires Sound(f)
  {
    Join(At(red, f.red), At(green, f.green), At(blue, f.blue))
  }

  function Value(word: bv32, shift: bv8): Byte
    requires shift < 32
  {
    Channel(word, shift) as nat
  }

  function Bits(v: Byte): bv8 {
    v as bv8
  }

  /** One pixel over the background. */
  function Compose(p: Rgba, f: Format): bv32
    requires Sound(f)
  {
    Pack(Bits(Mix(p.red, Value(f.background, f.red), p.alpha)),
         Bits(Mix(p.green, Value(f.background, f.green), p.alpha)),
         Bits(Mix(p.blue, Value(f.background, f.blue), p.alpha)), f)
  }

  predicate Clear(s: bv8, t: bv8) {
    (s >= t && s - t >= 8) || (t >= s && t - s >= 8)
  }

  /** The three channels are whole and do not overlap. */
  predicate Apart(f: Format) {
    && f.red <= 24 && f.green <= 24 && f.blue <= 24
    && Clear(f.red, f.green) && Clear(f.green, f.blue) && Clear(f.red, f.blue)
  }

  lemma FieldJoins(x: bv32, y: bv32, z: bv32, s: bv8)
    requires s < 32
    ensures Field(Join(x, y, z), s) == Join(Field(x, s), Field(y, s), Field(z, s))
  {
    assert ((x | y | z) >> s) & 0xFF == ((x >> s) & 0xFF) | ((y >> s) & 0xFF) | ((z >> s) & 0xFF);
  }

  lemma FieldFits(x: bv32, s: bv8)
    requires s < 32
    ensures Field(x, s) <= 0xFF
  {
  }

  lemma Narrowed(x: bv32, y: bv32, z: bv32)
    requires x <= 0xFF && y <= 0xFF && z <= 0xFF && Join(x, y, z) <= 0xFF
    ensures Join(x, y, z) as bv8 == Either(x as bv8, y as bv8, z as bv8)
  {
  }

  lemma ChannelJoins(x: bv32, y: bv32, z: bv32, s: bv8)
    requires s < 32
    ensures Channel(Join(x, y, z), s) == Either(Channel(x, s), Channel(y, s), Channel(z, s))
  {
    hide Field, Join, Either;
    FieldJoins(x, y, z, s);
    FieldFits(x, s);
    FieldFits(y, s);
    FieldFits(z, s);
    FieldFits(Join(x, y, z), s);
    Narrowed(Field(x, s), Field(y, s), Field(z, s));
  }

  function Either(x: bv8, y: bv8, z: bv8): bv8 {
    x | y | z
  }

  lemma EitherAlone(x: bv8)
    ensures Either(x, 0, 0) == x
  {
  }

  lemma ChannelHolds(x: bv8, s: bv8)
    requires s <= 24
    ensures Channel(At(x, s), s) == x
  {
  }

  lemma ChannelClear(y: bv8, t: bv8, s: bv8)
    requires s <= 24 && t <= 24 && Clear(s, t)
    ensures Channel(At(y, t), s) == 0
  {
  }

  /** Three bytes packed apart are read back, each from its own position. */
  lemma PackReads(r: bv8, g: bv8, b: bv8, f: Format)
    requires Apart(f)
    ensures Reads(Pack(r, g, b, f), r, g, b, f)
  {
    hide Channel, At, Join, Clear;
    ClearBoth(f.red, f.green);
    ClearBoth(f.red, f.blue);
    ClearBoth(f.green, f.blue);
    Reordered(At(r, f.red), At(g, f.green), At(b, f.blue));
    ReadsFirst(r, g, b, f.red, f.green, f.blue);
    ReadsFirst(g, r, b, f.green, f.red, f.blue);
    ReadsFirst(b, r, g, f.blue, f.red, f.green);
  }

  lemma ClearBoth(s: bv8, t: bv8)
    ensures Clear(s, t) <==> Clear(t, s)
  {
  }

  lemma ReadsFirst(x: bv8, y: bv8, z: bv8, s: bv8, t: bv8, u: bv8)
    requires s <= 24 && t <= 24 && u <= 24 && Clear(s, t) && Clear(s, u)
    ensures Channel(Join(At(x, s), At(y, t), At(z, u)), s) == x
  {
    hide Channel, At, Join, Either, Clear;
    ChannelJoins(At(x, s), At(y, t), At(z, u), s);
    ChannelHolds(x, s);
    ChannelClear(y, t, s);
    ChannelClear(z, u, s);
    EitherAlone(x);
  }

  predicate Reads(word: bv32, r: bv8, g: bv8, b: bv8, f: Format)
    requires Sound(f)
  {
    Channel(word, f.red) == r && Channel(word, f.green) == g && Channel(word, f.blue) == b
  }

  /** Every three bytes are read back from the word they are packed into exactly when the
      channels are whole and apart. */
  lemma PackExactly(f: Format)
    requires Sound(f)
    ensures (forall r, g, b :: Reads(Pack(r, g, b, f), r, g, b, f)) <==> Apart(f)
  {
    hide Pack, Reads, Apart;
    if Apart(f) {
      forall r, g, b ensures Reads(Pack(r, g, b, f), r, g, b, f) { PackReads(r, g, b, f); }
    } else {
      var r, g, b := Spoiled(f);
      assert !Reads(Pack(r, g, b, f), r, g, b, f);
    }
  }

  /** Bytes that a cut or overlapped channel loses. */
  lemma Spoiled(f: Format) returns (r: bv8, g: bv8, b: bv8)
    requires Sound(f) && !Apart(f)
    ensures !Reads(Pack(r, g, b, f), r, g, b, f)
  {
    hide Channel, At, Join;
    if f.red > 24 || !Clear(f.red, f.green) || !Clear(f.red, f.blue) {
      r, g, b := 255, 0, 0;
      Cut(f.red, f.green, f.blue);
    } else if f.green > 24 || !Clear(f.green, f.blue) {
      r, g, b := 0, 255, 0;
      Reordered(At(r, f.red), At(g, f.green), At(b, f.blue));
      Cut(f.green, f.red, f.blue);
    } else {
      r, g, b := 0, 0, 255;
      Reordered(At(r, f.red), At(g, f.green), At(b, f.blue));
      Cut(f.blue, f.red, f.green);
    }
  }

  lemma Reordered(x: bv32, y: bv32, z: bv32)
    ensures Join(x, y, z) == Join(y, x, z) == Join(z, x, y)
  {
  }

  /** A full byte at s is cut off there, or shows at another position. */
  lemma Cut(s: bv8, t: bv8, u: bv8)
    requires s < 32 && t < 32 && u < 32
    ensures var word := Join(At(255, s), At(0, t), At(0, u));
      && (s > 24 ==> Channel(word, s) != 255)
      && (!Clear(s, t) ==> Channel(word, t) != 0)
      && (!Clear(s, u) ==> Channel(word, u) != 0)
  {
  }

  /** Channels apart hold the blends: opaque pixels as they are, transparent ones the
      background, any other between the two. */
  lemma ComposeBlends(p: Rgba, f: Format)
    requires Sound(f)
    ensures var r := Mix(p.red, Value(f.background, f.red), p.alpha);
      var g := Mix(p.green, Value(f.background, f.green), p.alpha);
      var b := Mix(p.blue, Value(f.background, f.blue), p.alpha);
      && (Apart(f) ==> Reads(Compose(p, f), Bits(r), Bits(g), Bits(b), f))
      && BlendsOver(p.red, r, Value(f.background, f.red), p.alpha)
      && BlendsOver(p.green, g, Value(f.background, f.green), p.alpha)
      && BlendsOver(p.blue, b, Value(f.background, f.blue), p.alpha)
  {
    hide Mix, Bits, Value, Channel, Pack, Reads, Apart;
    var r := Mix(p.red, Value(f.background, f.red), p.alpha);
    var g := Mix(p.green, Value(f.background, f.green), p.alpha);
    var b := Mix(p.blue, Value(f.background, f.blue), p.alpha);
    if Apart(f) { PackReads(Bits(r), Bits(g), Bits(b), f); }
    MixBlends(p.red, Value(f.background, f.red), p.alpha);
    MixBlends(p.green, Value(f.background, f.green), p.alpha);
    MixBlends(p.blue, Value(f.background, f.blue), p.alpha);
  }

  /** What a channel may show over the background. */
  predicate BlendsOver(channel: Byte, shown: Byte, under: Byte, alpha: Byte) {
    && (alpha == 255 ==> shown == channel)
    && (alpha == 0 ==> shown == under)
    && (channel <= shown <= under || under <= shown <= channel)
  }

  /** The decoder with this packing: every pixel of the picture, blended into its place. */
  method DrawLogo(blob: seq<Byte>, out: array<bv32>, f: Format) returns (result: Result<Geometry>)
    requires Sound(f)
    modifies out
    ensures result == match Decode(blob, out.Length)
      case Err(status) => Err(status)
      case Ok((g, _)) => Ok(g)
    ensures match Decode(blob, out.Length)
      case Err(_) => true
      case Ok((g, rs)) =>
        var pixels := g.width * g.height;
        && pixels == |Expand(rs)| <= out.Length && out[pixels..] == old(out[pixels..])
        && forall i :: 0 <= i < pixels ==> out[i] == Compose(Expand(rs)[i], f)
  {
    hide Decode, Expand, Compose;
    result := DecodeInto(blob, out, p => Compose(p, f));
  }
}
