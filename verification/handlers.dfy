/**
 * The two image routes that feed the result store: `/hide_image` and
 * `/extract_image`. Decoding the uploads, resizing and converting them to RGB
 * and encoding the result as PNG are done by PIL; the model receives the RGB
 * pixels and takes the PNG encoder as a parameter. The key is the one
 * `uuid.uuid4()` drew, which is never already in use.
 */
module Handlers {
  import opened ImageCodec
  import opened ResultStore

  /**
   * `/hide_image`: embeds the secret (already resized to the cover's size)
   * into the cover, stores the PNG of the stego image under a new key and
   * makes it the latest result.
   */
  method HideImage(store: Store, cover: Image, secret: Image, key: Key, encodePng: Image -> seq<Byte>)
    requires store.Valid()
    requires |secret| == |cover|
    requires key !in store.entries
    modifies store
    ensures store.Valid()
    ensures |Embedded(cover, secret)| == |cover|
    ensures store.entries.Keys == old(store.entries.Keys) + {key}
    ensures store.entries == old(store.entries)[key := encodePng(Embedded(cover, secret))]
    ensures store.latest == Some(key)
    ensures store.stored == old(store.stored) + [encodePng(Embedded(cover, secret))]
    ensures store.Processed() == Some(encodePng(Embedded(cover, secret)))
  {
    var stego := Embed(cover, secret);
    store.Put(key, encodePng(stego));
  }

  /**
   * `/extract_image`: turns every channel's low bit into 0 or 255, stores the
   * PNG of the result under a new key and makes it the latest result.
   */
  method ExtractImage(store: Store, image: Image, key: Key, encodePng: Image -> seq<Byte>)
    requires store.Valid()
    requires key !in store.entries
    modifies store
    ensures store.Valid()
    ensures store.entries.Keys == old(store.entries.Keys) + {key}
    ensures store.entries == old(store.entries)[key := encodePng(Extracted(image))]
    ensures store.latest == Some(key)
    ensures store.stored == old(store.stored) + [encodePng(Extracted(image))]
    ensures store.Processed() == Some(encodePng(Extracted(image)))
  {
    var out := Extract(image);
    store.Put(key, encodePng(out));
  }
}
