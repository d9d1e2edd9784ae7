/**
 * The /cover/:id handler of main.go: serve a 200x300 JPEG thumbnail of a
 * book's cover.jpg from an on-disk cache keyed by the book identifier,
 * deriving and caching it on a miss.
 *
 * Decoding, sub-imaging, Lanczos resizing and JPEG encoding belong to
 * foreign image libraries; they are the fields of an ImageLib value the
 * handler is given.
 */
module CoverCache {
  import opened Wrappers
  import SmartCrop

  newtype byte = x: int | 0 <= x < 256
  type Bytes = seq<byte>

  /** A decoded image: its bounds and its pixels, which the model does not interpret. */
  datatype Image = Image(width: nat, height: nat, pixels: seq<int>)

  /**
   * The library calls: image.Decode, SubImage (or the image itself when it
   * has no SubImage method), resize.Resize with Lanczos3, jpeg.Encode.
   */
  datatype ImageLib = ImageLib(
    decode: Bytes -> Option<Image>,
    subImage: (Image, SmartCrop.Rect) -> Image,
    resize: (nat, nat, Image) -> Image,
    encodeJpeg: (Image, nat) -> Bytes)

  /** The cache_status tag: H hit, M miss so far, C miss then cached, X failure or cache write failed. */
  datatype CacheTag = H | M | C | X

  /** The HTTP answer: status code, cache_status tag, Cache-Control header and body (none for 404 or 400). */
  datatype CoverResponse = CoverResponse(code: int, tag: CacheTag, cacheControl: string, body: Option<Bytes>)

  const HitCacheControl := "public, max-age=31536000"
  const MissCacheControl := "public, max-age=604800"
  const ThumbWidth := 200
  const ThumbHeight := 300
  const JpegQuality := 85

  /** The cache file name of a book: id + "_150.jpg". */
  function CacheKey(id: string): (key: string)
    ensures |key| == |id| + 8 && key[..|id|] == id && key[|id|..] == "_150.jpg"
  {
    id + "_150.jpg"
  }

  /** Distinct books have distinct cache files. */
  lemma CacheKeyInjective(a: string, b: string)
    requires CacheKey(a) == CacheKey(b)
    ensures a == b
  {
    assert a == CacheKey(a)[..|a|];
  }

  /** Crop to 2:3, resize to 200x300, encode at quality 85. */
  function Thumbnail(img: Image, lib: ImageLib): Bytes {
    var rect := SmartCrop.CropRect(img.width, img.height);
    lib.encodeJpeg(lib.resize(ThumbWidth, ThumbHeight, lib.subImage(img, rect)), JpegQuality)
  }

  /** A response and the cache after it. */
  datatype Outcome = Outcome(response: CoverResponse, cache: map<string, Bytes>)

  /**
   * One request. `cache` maps cache file names to their bytes, `covers` maps
   * a book's storage path to its cover.jpg bytes, `createOk` is whether
   * os.Create of the cache file succeeds.
   */
  function Serve(cache: map<string, Bytes>, covers: map<string, Bytes>, id: string, path: string,
                 createOk: bool, lib: ImageLib): (o: Outcome)
    // Entries are never changed or removed; at most the entry of this id is added.
    ensures forall k :: k in cache ==> k in o.cache && o.cache[k] == cache[k]
    ensures o.cache.Keys <= cache.Keys + {CacheKey(id)}
    // A hit is served exactly when the entry exists, with the cached bytes.
    ensures o.response.tag == H <==> CacheKey(id) in cache
    ensures o.response.tag == H ==> o.response.body == Some(cache[CacheKey(id)])
    // The cache grows exactly on a C, and then holds the bytes that are served.
    ensures o.cache != cache <==> o.response.tag == C
    ensures o.response.tag == C ==> o.response.body.Some? && o.cache == cache[CacheKey(id) := o.response.body.value]
    // Every answer is 200, 404 or 400, and only 200 has a body.
    ensures o.response.code in {200, 404, 400}
    ensures o.response.body.Some? <==> o.response.code == 200
  {
    var key := CacheKey(id);
    if key in cache then
      Outcome(CoverResponse(200, H, HitCacheControl, Some(cache[key])), cache)
    else if path !in covers then
      Outcome(CoverResponse(404, X, MissCacheControl, None), cache)
    else match lib.decode(covers[path])
      case None =>
        Outcome(CoverResponse(400, X, MissCacheControl, None), cache)
      case Some(img) =>
        var thumb := Thumbnail(img, lib);
        if createOk then
          Outcome(CoverResponse(200, C, MissCacheControl, Some(thumb)), cache[key := thumb])
        else
          Outcome(CoverResponse(200, X, MissCacheControl, Some(thumb)), cache)
  }

  /** A cache hit serves the stored bytes for a year and writes nothing. */
  lemma HitServesCachedBytes(cache: map<string, Bytes>, covers: map<string, Bytes>, id: string, path: string,
                             createOk: bool, lib: ImageLib)
    requires CacheKey(id) in cache
    ensures Serve(cache, covers, id, path, createOk, lib) ==
      Outcome(CoverResponse(200, H, HitCacheControl, Some(cache[CacheKey(id)])), cache)
  {
  }

  /** A missing cover answers 404 and adds no cache entry. */
  lemma MissingCoverIsNotFound(cache: map<string, Bytes>, covers: map<string, Bytes>, id: string, path: string,
                               createOk: bool, lib: ImageLib)
    requires CacheKey(id) !in cache && path !in covers
    ensures Serve(cache, covers, id, path, createOk, lib) ==
      Outcome(CoverResponse(404, X, MissCacheControl, None), cache)
  {
  }

  /** An undecodable cover answers 400 and adds no cache entry. */
  lemma UndecodableCoverIsBadRequest(cache: map<string, Bytes>, covers: map<string, Bytes>, id: string, path: string,
                                     createOk: bool, lib: ImageLib)
    requires CacheKey(id) !in cache && path in covers && lib.decode(covers[path]).None?
    ensures Serve(cache, covers, id, path, createOk, lib) ==
      Outcome(CoverResponse(400, X, MissCacheControl, None), cache)
  {
  }

  /**
   * A decodable cover is served as its thumbnail for a week; the cache gains
   * exactly that entry when the file can be created (C) and is unchanged
   * otherwise (X).
   */
  lemma DerivedThumbnailIsServed(cache: map<string, Bytes>, covers: map<string, Bytes>, id: string, path: string,
                                 createOk: bool, lib: ImageLib, img: Image)
    requires CacheKey(id) !in cache && path in covers && lib.decode(covers[path]) == Some(img)
    ensures var o := Serve(cache, covers, id, path, createOk, lib);
      o.response == CoverResponse(200, if createOk then C else X, MissCacheControl, Some(Thumbnail(img, lib))) &&
      o.cache == if createOk then cache[CacheKey(id) := Thumbnail(img, lib)] else cache
  {
  }

  /**
   * A request after one that cached the thumbnail is a hit with byte-identical
   * output, whatever happens to the cover or to later file creation.
   */
  lemma SecondRequestHits(cache: map<string, Bytes>, covers: map<string, Bytes>, covers': map<string, Bytes>,
                          id: string, path: string, path': string, createOk': bool, lib: ImageLib)
    requires Serve(cache, covers, id, path, true, lib).response.tag == C
    ensures var first := Serve(cache, covers, id, path, true, lib);
      var second := Serve(first.cache, covers', id, path', createOk', lib);
      second.response == CoverResponse(200, H, HitCacheControl, first.response.body) &&
      second.cache == first.cache
  {
  }

  /** The library's files: the thumbnail cache and the covers it is derived from. */
  class Disk {
    var cache: map<string, Bytes>
    var covers: map<string, Bytes>

    /** The cache directory survives restarts, so the disk may start with thumbnails already cached. */
    constructor (cache: map<string, Bytes>, covers: map<string, Bytes>)
      ensures this.cache == cache && this.covers == covers
    {
      this.cache := cache;
      this.covers := covers;
    }

    /** The handler, step by step: stat the cache file, open, decode, crop, resize, create, encode. */
    method GetCover(id: string, path: string, createOk: bool, lib: ImageLib) returns (resp: CoverResponse)
      modifies this`cache
      ensures Outcome(resp, cache) == Serve(old(cache), covers, id, path, createOk, lib)
    {
      var cachePath := CacheKey(id);

      if cachePath in cache {
        resp := CoverResponse(200, H, HitCacheControl, Some(cache[cachePath]));
        return;
      }

      var tag := M;
      var cacheControl := MissCacheControl;
      if path !in covers {
        tag := X;
        resp := CoverResponse(404, tag, cacheControl, None);
        return;
      }
      var file := covers[path];

      var decoded := lib.decode(file);
      if decoded.None? {
        tag := X;
        resp := CoverResponse(400, tag, cacheControl, None);
        return;
      }
      var img := decoded.value;

      var rect := SmartCrop.CropRect(img.width, img.height);
      var sub := lib.subImage(img, rect);
      var m := lib.resize(ThumbWidth, ThumbHeight, sub);

      if createOk {
        cache := cache[cachePath := lib.encodeJpeg(m, JpegQuality)];
        tag := C;
      } else {
        tag := X;
      }

      resp := CoverResponse(200, tag, cacheControl, Some(lib.encodeJpeg(m, JpegQuality)));
    }
  }
}
