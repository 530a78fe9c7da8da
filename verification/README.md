# LSB steganography service: image codec and result store

This project models the core of a small Flask service (`all_in_one.py`) that
hides one image inside another by least-significant-bit (LSB) steganography
and keeps every produced image in a process-wide cache.

- `ImageCodec` (`image_codec.dfy`): the pixel loops of `hide_image` and
  `extract_image`. A channel is an 8-bit value (`bv8`), a pixel a sequence of
  three channels, an image its pixels in row-major order. Embedding writes
  `(cover & 0xFE) | (secret >> 7)` per channel over `zip` of the two pixel
  lists; extraction writes `(channel & 1) * 255`. Each loop is a method proved
  equal to a recursive specification function, and the lemmas state what the
  codec promises: the cover's upper seven bits survive, the low bit carries
  the secret's top bit, extraction yields only 0 or 255, is idempotent, and
  recovers the secret's top bit from a stego image.
- `ResultStore` (`result_store.dfy`): `uuid_image_map` and `latest_file_uuid`
  as a class with a map field and an optional latest key; a ghost history of
  stored buffers states that `/processed` always serves the most recent one,
  and nothing before the first store.
- `Handlers` (`handlers.dfy`): `/hide_image` and `/extract_image` as methods
  that run the codec loop and store the encoded result.

PIL (decoding, `convert('RGB')`, `resize`, PNG encoding) is not modelled: the
handlers receive RGB pixels, a resized secret is a precondition of equal
pixel count, and the PNG encoder is a function parameter. The key drawn from
`uuid.uuid4()` is a parameter that the handlers require to be unused, and a
key is a 36-character string, the canonical text form of a UUID.

## Model

| member | source | states |
|---|---|---|
| `ImageCodec.EmbedChannel` | all_in_one.py:39 | the embedded channel has the cover's upper seven bits, its low bit is 1 exactly when the secret channel is at least 128, its value is the cover with the low bit cleared plus the secret's top bit, so it is within one of the cover |
| `ImageCodec.EmbedPixel` | all_in_one.py:39 | every channel of the new pixel keeps the cover channel's upper seven bits and has its low bit set exactly when the secret channel is at least 128 |
| `ImageCodec.Embedded` | all_in_one.py:37-40 | the stego image has one pixel per positional pair of the zipped inputs (as many as the shorter input), and pixel k is built from cover pixel k and secret pixel k |
| `ImageCodec.Embed` | all_in_one.py:37-40 | the appending loop builds exactly the stego image `Embedded` describes |
| `ImageCodec.ExtractChannel` | all_in_one.py:72 | the extracted channel is 0 or 255, and 255 exactly when the input channel is odd |
| `ImageCodec.ExtractPixel` | all_in_one.py:72 | every channel of the extracted pixel is 0 or 255, and 255 exactly when the input channel is odd |
| `ImageCodec.Extracted` | all_in_one.py:70-73 | the extracted image has as many pixels as the input, and pixel k is the extraction of input pixel k |
| `ImageCodec.Extract` | all_in_one.py:70-73 | the appending loop builds exactly the image `Extracted` describes |
| `ImageCodec.EmbedChannels` | all_in_one.py:38-39 | every stego channel keeps its cover channel's upper seven bits, is within one of it, and has its low bit set exactly when the secret channel is at least 128 |
| `ImageCodec.EmbedKeepsCoverSize` | all_in_one.py:26-40 | once the secret has the cover's size, the stego image has the cover's pixel count |
| `ImageCodec.ExtractChannels` | all_in_one.py:70-73 | every channel of an extracted image is 0 or 255, and 255 exactly when the input channel is odd |
| `ImageCodec.ExtractIdempotent` | all_in_one.py:70-73 | extracting an extracted image returns it unchanged |
| `ImageCodec.ExtractAfterEmbed` | all_in_one.py:37-73 | extracting a stego image gives, per channel, 255 exactly where the secret channel was at least 128 and 0 elsewhere, over the zipped length |
| `ImageCodec.BlackCoverWhiteSecret` | all_in_one.py:37-73 | an all-black cover with an all-white secret embeds to all channels 1, which extract to all channels 255 |
| `ResultStore.Store.constructor` | all_in_one.py:9-13 | at start the map is empty, there is no latest key and nothing has been stored |
| `ResultStore.Store.Put` | all_in_one.py:52-55 | the buffer is stored under the key, no entry is removed, every other entry is unchanged, the key becomes the latest one, and `/processed` now serves this buffer |
| `ResultStore.Store.Processed` | all_in_one.py:129-135 | in a valid store the answer is not-found exactly when nothing has been stored, and otherwise the most recently stored buffer |
| `Handlers.HideImage` | all_in_one.py:16-57 | adds exactly one entry, under the fresh key, holding the encoded stego image of the cover's size; the latest key becomes that key, the history grows by that buffer, and it is the result `/processed` serves |
| `Handlers.ExtractImage` | all_in_one.py:60-87 | adds exactly one entry, under the fresh key, holding the encoded extracted image; the latest key becomes that key, the history grows by that buffer, and it is the result `/processed` serves |

## Left out

- The text codec `/encode` and `/decode` (all_in_one.py:90-126): it delegates to `stegano.lsb.hide` and `lsb.reveal`, an external library whose bit layout is not part of this model; their missing-field error answers are HTTP glue.
- PIL: `Image.open`, `convert('RGB')`, `resize`, `Image.new`/`putdata` and PNG encoding (all_in_one.py:22-30, 43-49, 65-66, 75-80). Decoding failures of malformed uploads are therefore not modelled; the resize appears only as the precondition that the secret has as many pixels as the cover, and the PNG encoder is an arbitrary function parameter. Image width and height are not modelled separately from the pixel count.
- `uuid.uuid4()`: randomness is replaced by a key parameter that the handlers require to be absent from the map, which is what a freshly drawn UUID guarantees in practice.
- The store keeps each result as a `BytesIO` stream that `send_file` reads and closes; the model keeps immutable byte sequences, so what a second fetch of the same stream returns is not modelled.
- Concurrent requests racing on `latest_file_uuid` (all_in_one.py:52-55): the model is sequential.
- Flask routing, request-field access, JSON responses, the unused `password` field and the `app.run` bootstrap.
