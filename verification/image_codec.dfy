/**
 * The image-in-image LSB codec of the service: `hide_image` writes the most
 * significant bit of every secret channel into the least significant bit of
 * the matching cover channel, and `extract_image` turns the least significant
 * bit of every channel back into a black (0) or full (255) channel.
 *
 * Images are what PIL's `getdata()` yields after `convert('RGB')`: the pixels
 * in row-major order, each a triple of 8-bit channels.
 */
module ImageCodec {

  /** One colour channel of an RGB pixel, 0..255. */
  type Channel = bv8

  /** An RGB pixel: red, green and blue. */
  type Pixel = p: seq<Channel> | |p| == 3 witness [0, 0, 0]

  /** The pixels of an image in row-major order. */
  type Image = seq<Pixel>

  function Min(a: nat, b: nat): (m: nat)
    ensures m <= a && m <= b && (m == a || m == b)
  {
    if a < b then a else b
  }

  // ---------------------------------------------------------------------------
  // Embedding (hide_image)
  // ---------------------------------------------------------------------------

  /**
   * `(cover_channel & 0b11111110) | (secret_channel >> 7)`: the cover keeps its
   * upper seven bits and its low bit becomes the secret's top bit, so the
   * channel moves by at most one step.
   */
  function EmbedChannel(cover: Channel, secret: Channel): (r: Channel)
    ensures r & 0xFE == cover & 0xFE
    ensures r & 1 == if secret >= 128 then 1 else 0
    ensures r == cover - cover % 2 + secret / 128
    ensures cover as int - 1 <= r as int <= cover as int + 1
  {
    (cover & 0xFE) | (secret >> 7)
  }

  /**
   * The tuple built from the zipped channels of one cover/secret pixel pair:
   * each channel keeps the cover's upper seven bits and carries the secret's
   * top bit.
   */
  function EmbedPixel(cover: Pixel, secret: Pixel): (p: Pixel)
    ensures forall ch :: 0 <= ch < 3 ==>
      && p[ch] & 0xFE == cover[ch] & 0xFE
      && (p[ch] & 1 == 1 <==> secret[ch] >= 128)
  {
    seq(3, ch requires 0 <= ch < 3 => EmbedChannel(cover[ch], secret[ch]))
  }

  /**
   * The stego pixels: one per positional pair of `zip(cover_pixels,
   * secret_pixels)`, so as many as the shorter of the two inputs, in order.
   */
  function Embedded(cover: Image, secret: Image): (stego: Image)
    ensures |stego| == Min(|cover|, |secret|)
    ensures forall k :: 0 <= k < |stego| ==> stego[k] == EmbedPixel(cover[k], secret[k])
    decreases |cover|
  {
    if cover == [] || secret == [] then []
    else [EmbedPixel(cover[0], secret[0])] + Embedded(cover[1..], secret[1..])
  }

  /** The loop of `hide_image` that appends one new pixel per pair to `new_pixels`. */
  method Embed(cover: Image, secret: Image) returns (stego: Image)
    ensures stego == Embedded(cover, secret)
  {
    var n := Min(|cover|, |secret|);
    stego := [];
    var i := 0;
    while i < n
      invariant 0 <= i <= n
      invariant |stego| == i
      invariant forall k :: 0 <= k < i ==> stego[k] == EmbedPixel(cover[k], secret[k])
    {
      stego := stego + [EmbedPixel(cover[i], secret[i])];
      i := i + 1;
    }
  }

  // ---------------------------------------------------------------------------
  // Extraction (extract_image)
  // ---------------------------------------------------------------------------

  /** `(channel & 1) * 255`: full when the least significant bit is set, else black. */
  function ExtractChannel(c: Channel): (r: Channel)
    ensures r == 0 || r == 255
    ensures r == 255 <==> c as int % 2 == 1
  {
    (c & 1) * 255
  }

  /** The tuple built from the channels of one pixel: each is 0, or 255 where the input is odd. */
  function ExtractPixel(p: Pixel): (q: Pixel)
    ensures forall ch :: 0 <= ch < 3 ==>
      && (q[ch] == 0 || q[ch] == 255)
      && (q[ch] == 255 <==> p[ch] as int % 2 == 1)
  {
    seq(3, ch requires 0 <= ch < 3 => ExtractChannel(p[ch]))
  }

  /** The extracted pixels: one per input pixel, in order. */
  function Extracted(image: Image): (out: Image)
    ensures |out| == |image|
    ensures forall k :: 0 <= k < |out| ==> out[k] == ExtractPixel(image[k])
  {
    if image == [] then []
    else [ExtractPixel(image[0])] + Extracted(image[1..])
  }

  /** The loop of `extract_image` that appends one pixel per input pixel to `extracted_pixels`. */
  method Extract(image: Image) returns (out: Image)
    ensures out == Extracted(image)
  {
    out := [];
    var i := 0;
    while i < |image|
      invariant 0 <= i <= |image|
      invariant |out| == i
      invariant forall k :: 0 <= k < i ==> out[k] == ExtractPixel(image[k])
    {
      out := out + [ExtractPixel(image[i])];
      i := i + 1;
    }
  }

  // ---------------------------------------------------------------------------
  // Properties of the codec
  // ---------------------------------------------------------------------------

  /**
   * Every stego channel agrees with its cover channel in the upper seven bits,
   * differs from it by at most one, and carries the secret channel's top bit.
   */
  lemma EmbedChannels(cover: Image, secret: Image)
    ensures forall k, ch :: 0 <= k < |Embedded(cover, secret)| && 0 <= ch < 3 ==>
      && Embedded(cover, secret)[k][ch] & 0xFE == cover[k][ch] & 0xFE
      && cover[k][ch] as int - 1 <= Embedded(cover, secret)[k][ch] as int <= cover[k][ch] as int + 1
      && (Embedded(cover, secret)[k][ch] & 1 == 1 <==> secret[k][ch] >= 128)
  {
  }

  /** A secret resized to the cover's size yields a stego image of the cover's size. */
  lemma EmbedKeepsCoverSize(cover: Image, secret: Image)
    requires |secret| == |cover|
    ensures |Embedded(cover, secret)| == |cover|
  {
  }

  /** Every extracted channel is black or full, and full exactly when the input channel is odd. */
  lemma ExtractChannels(image: Image)
    ensures forall k, ch :: 0 <= k < |image| && 0 <= ch < 3 ==>
      && (Extracted(image)[k][ch] == 0 || Extracted(image)[k][ch] == 255)
      && (Extracted(image)[k][ch] == 255 <==> image[k][ch] as int % 2 == 1)
  {
  }

  /** Extracting an extracted image changes nothing. */
  lemma {:induction false} ExtractIdempotent(image: Image)
    ensures Extracted(Extracted(image)) == Extracted(image)
  {
    var once := Extracted(image);
    forall k | 0 <= k < |image|
      ensures ExtractPixel(once[k]) == once[k]
    {
      forall ch | 0 <= ch < 3
        ensures ExtractChannel(once[k][ch]) == once[k][ch]
      {
        assert once[k][ch] == ExtractChannel(image[k][ch]);
      }
    }
  }

  /**
   * Extracting a stego image recovers, per channel, a full channel exactly
   * where the secret channel was at least 128, and black elsewhere.
   */
  lemma ExtractAfterEmbed(cover: Image, secret: Image)
    ensures |Extracted(Embedded(cover, secret))| == Min(|cover|, |secret|)
    ensures forall k, ch :: 0 <= k < Min(|cover|, |secret|) && 0 <= ch < 3 ==>
      Extracted(Embedded(cover, secret))[k][ch] == if secret[k][ch] >= 128 then 255 else 0
  {
  }

  /** An image of `n` pixels whose every channel is `v`. */
  function Solid(n: nat, v: Channel): (image: Image)
    ensures |image| == n
    ensures forall k, ch :: 0 <= k < n && 0 <= ch < 3 ==> image[k][ch] == v
  {
    seq(n, _ => [v, v, v])
  }

  /**
   * A black cover with a white secret of the same size embeds to an image
   * whose every channel is 1, and that extracts to an all-white image.
   */
  lemma BlackCoverWhiteSecret(n: nat)
    ensures Embedded(Solid(n, 0), Solid(n, 255)) == Solid(n, 1)
    ensures Extracted(Solid(n, 1)) == Solid(n, 255)
  {
    var stego := Embedded(Solid(n, 0), Solid(n, 255));
    forall k | 0 <= k < n
      ensures stego[k] == Solid(n, 1)[k]
    {
      assert EmbedChannel(0, 255) == 1;
    }
    var out := Extracted(Solid(n, 1));
    forall k | 0 <= k < n
      ensures out[k] == Solid(n, 255)[k]
    {
      assert ExtractChannel(1) == 255;
    }
  }
}
