/** What one run of the icon loader (`run` inside `useRemoteSvgIcon`'s
    effect) does: which markup and error it sets and how it reads and
    writes the SVG cache.  The network response, the cancellation flag and
    the SVG transformation are inputs. */
module RemoteSvgIcon {
  import opened Wrappers
  import opened OrderedMap
  import opened SvgLruCache
  import opened IconOptions

  // ---------------------------------------------------------------------
  // The raster-extension test `/\.(png|jpe?g|gif|webp)(\?.*)?$/i`

  /** ASCII case folding, the only folding the case-insensitive pattern
      can apply to its ASCII letters. */
  function LowerAscii(c: char): char {
    if 'A' <= c <= 'Z' then (c as int + 32) as char else c
  }

  function LowerAsciiString(s: string): string {
    seq(|s|, i requires 0 <= i < |s| => LowerAscii(s[i]))
  }

  /** The characters `.` does not match. */
  predicate IsLineTerminator(c: char) {
    c == '\n' || c == '\r' || c == '\U{2028}' || c == '\U{2029}'
  }

  const RasterExtensions: set<string> := {"png", "jpg", "jpeg", "gif", "webp"}

  /** The pattern matches with the dot at `i` and the extension ending at
      `j`: the input ends there, or a `?` follows and the rest of the input
      holds no line terminator. */
  predicate RasterMatchAt(url: string, i: int, j: int) {
    0 <= i < j <= |url| && url[i] == '.'
    && LowerAsciiString(url[i + 1..j]) in RasterExtensions
    && (j == |url| ||
        (url[j] == '?' && forall m | j < m < |url| :: !IsLineTerminator(url[m])))
  }

  /** `regex.test(url)`: a match starts somewhere in the URL. */
  predicate IsRasterUrl(url: string) {
    exists i, j | 0 <= i < j <= |url| :: RasterMatchAt(url, i, j)
  }

  /** Examples: an upper-case extension, a mixed-case one followed by a
      query string, and an empty query string. */
  lemma RasterExamples()
    ensures IsRasterUrl("logo.PNG")
    ensures IsRasterUrl("https://cdn.example.com/a.JpEg?w=64")
    ensures IsRasterUrl("photo.webp?")
  {
    assert RasterMatchAt("logo.PNG", 4, 8) by {
      assert "logo.PNG"[5..8] == "PNG";
      assert LowerAsciiString("PNG") == "png";
    }
    var u := "https://cdn.example.com/a.JpEg?w=64";
    assert RasterMatchAt(u, 25, 30) by {
      assert u[26..30] == "JpEg";
      assert LowerAsciiString("JpEg") == "jpeg";
    }
    assert RasterMatchAt("photo.webp?", 5, 10) by {
      assert "photo.webp?"[6..10] == "webp";
      assert LowerAsciiString("webp") == "webp";
    }
  }

  /** Any URL ending in a dot and a raster extension, in any mix of letter
      case, is a raster URL, with or without a query string after it that
      holds no line terminator. */
  lemma RasterExtensionMatches(path: string, ext: string, query: string)
    requires LowerAsciiString(ext) in RasterExtensions
    requires forall m | 0 <= m < |query| :: !IsLineTerminator(query[m])
    ensures IsRasterUrl(path + "." + ext)
    ensures IsRasterUrl(path + "." + ext + "?" + query)
  {
    var i, j := |path|, |path| + 1 + |ext|;
    var bare := path + "." + ext;
    assert bare[i + 1..j] == ext;
    assert RasterMatchAt(bare, i, j);
    var url := bare + "?" + query;
    assert url[i + 1..j] == ext;
    assert forall m | j < m < |url| :: url[m] == query[m - j - 1];
    assert RasterMatchAt(url, i, j);
  }

  /** A URL without a query string that ends in `.svg` is never taken for
      a raster image. */
  lemma SvgPathNotRaster(url: string)
    requires '?' !in url && |url| >= 4 && url[|url| - 4..] == ".svg"
    ensures !IsRasterUrl(url)
  {
    forall i, j | 0 <= i < j <= |url| ensures !RasterMatchAt(url, i, j) {
      if j < |url| {
        assert url[j] in url;
      } else {
        var ext := LowerAsciiString(url[i + 1..j]);
        if |ext| >= 2 {
          assert url[|url| - 2] == 'v';
          assert ext[|ext| - 2] == 'v';
        } else if |ext| == 1 {
          assert ext[0] == LowerAscii(url[|url| - 1]) == 'g';
        }
        NotRasterExtension(ext);
      }
    }
  }

  /** The raster extensions have no `v` in second-to-last place and none is
      shorter than three letters. */
  lemma NotRasterExtension(ext: string)
    requires (|ext| >= 2 && ext[|ext| - 2] == 'v') || |ext| < 3
    ensures ext !in RasterExtensions
  {
  }

  /** A raster extension earlier in the URL is enough when a query string
      follows it, even one naming an `.svg` file. */
  lemma QueryAfterRasterIsRaster()
    ensures IsRasterUrl("icon.png?as=icon.svg")
  {
    assert RasterMatchAt("icon.png?as=icon.svg", 4, 8) by {
      assert "icon.png?as=icon.svg"[5..8] == "png";
      assert LowerAsciiString("png") == "png";
    }
  }

  // ---------------------------------------------------------------------
  // The HTTP response and the error message

  /** `String(n)` of a non-negative integer. */
  function DecimalString(n: nat): (s: string)
    ensures |s| > 0
    ensures forall i | 0 <= i < |s| :: '0' <= s[i] <= '9'
    ensures |s| > 1 ==> s[0] != '0'
    decreases n
  {
    var digit := ('0' as int + n % 10) as char;
    if n < 10 then [digit] else DecimalString(n / 10) + [digit]
  }

  /** The value of a string of decimal digits. */
  function DecimalValue(s: string): nat
    requires forall i | 0 <= i < |s| :: '0' <= s[i] <= '9'
  {
    if s == [] then 0
    else 10 * DecimalValue(s[..|s| - 1]) + (s[|s| - 1] as int - '0' as int)
  }

  /** Statuses are written without leading zeros. */
  lemma DecimalExamples()
    ensures DecimalString(404) == "404" && DecimalString(0) == "0"
  {
  }

  /** The status in `HTTP <status>` reads back as the status. */
  lemma {:induction false} DecimalRoundTrip(n: nat)
    ensures DecimalValue(DecimalString(n)) == n
    decreases n
  {
    var s := DecimalString(n);
    if n >= 10 {
      DecimalRoundTrip(n / 10);
      assert s[..|s| - 1] == DecimalString(n / 10);
    }
  }

  /** What `res.text()` yields: the body, or the error it throws. */
  datatype BodyOutcome = Text(text: string) | BodyError(message: string)

  /** What `fetch(url)` yields: a network error (the message of what it
      throws), or a response with its `ok` flag, `status`, `content-type`
      header (`null` as `None`) and body. */
  datatype FetchOutcome =
    | NetworkError(message: string)
    | Response(ok: bool, status: nat, contentType: Option<string>, body: BodyOutcome)

  /** `s.includes(sub)` */
  predicate Contains(s: string, sub: string) {
    exists i | 0 <= i <= |s| - |sub| :: OccursAt(s, sub, i)
  }

  /** An empty or absent content type is accepted; otherwise it must
      mention `svg`, in lower case. */
  predicate AcceptedContentType(contentType: Option<string>) {
    var ct := OrElse(contentType, "");
    ct == "" || Contains(ct, "svg")
  }

  /** The steps inside the loader's `try` up to `res.text()`: the SVG text,
      or the message of the first error thrown. */
  function FetchText(fetch: FetchOutcome): (r: Result<string, string>)
    ensures r.Success? <==>
      fetch.Response? && fetch.ok && AcceptedContentType(fetch.contentType) && fetch.body.Text?
    ensures r.Success? ==> r.value == fetch.body.text
    ensures fetch.Response? && !fetch.ok ==> r == Failure("HTTP " + DecimalString(fetch.status))
    ensures fetch.Response? && fetch.ok && !AcceptedContentType(fetch.contentType) ==>
      r == Failure("Non-SVG content: " + fetch.contentType.value)
    ensures fetch.NetworkError? ==> r == Failure(fetch.message)
    ensures fetch.Response? && fetch.ok && AcceptedContentType(fetch.contentType) && fetch.body.BodyError? ==>
      r == Failure(fetch.body.message)
  {
    match fetch
    case NetworkError(message) => Failure(message)
    case Response(ok, status, contentType, body) =>
      if !ok then Failure("HTTP " + DecimalString(status))
      else
        var ct := OrElse(contentType, "");
        if ct != "" && !Contains(ct, "svg") then Failure("Non-SVG content: " + ct)
        else match body
          case Text(text) => Success(text)
          case BodyError(message) => Failure(message)
  }

  /** `e?.message || "Failed to load SVG"` */
  function ErrorMessage(message: string): (r: string)
    ensures r != ""
    ensures message != "" ==> r == message
    ensures message == "" ==> r == "Failed to load SVG"
  {
    if message != "" then message else "Failed to load SVG"
  }

  // ---------------------------------------------------------------------
  // The loader

  /** One React state update: left alone, or set to a value. */
  datatype Update<T> = Keep | Assign(value: T)

  /** The `setSvgMarkup` and `setError` calls of one run (`null` as `None`). */
  datatype Effect = Effect(markup: Update<string>, error: Update<Option<string>>)

  /** The effect of one run and the cache it leaves. */
  datatype Load = Load(effect: Effect, entries: seq<Entry>)

  const NoEffect: Effect := Effect(Keep, Keep)

  /** The placeholder set on its own, as for a missing or raster URL. */
  function ShowFallback(options: RemoteSvgOptions): Effect {
    Effect(Assign(FallbackSvg(options)), Keep)
  }

  /** The markup set and the error cleared. */
  function ShowMarkup(markup: string): Effect {
    Effect(Assign(markup), Assign(None))
  }

  /** The loader's `try`/`catch` after a cache miss: on success, unless
      cancelled, the transformed SVG is cached and shown; on an error,
      unless cancelled, the placeholder is shown with the error message. */
  function Fetched(key: string, options: RemoteSvgOptions, s: seq<Entry>, fetch: FetchOutcome,
                   cancelled: bool, transform: (string, RemoteSvgOptions) -> string): (r: Load)
    ensures CacheInvariant(s) ==> CacheInvariant(r.entries)
    ensures !(FetchText(fetch).Success? && !cancelled) ==> r.entries == s
  {
    match FetchText(fetch)
    case Success(text) =>
      if cancelled then Load(NoEffect, s)
      else
        var transformed := transform(text, options);
        Load(ShowMarkup(transformed), CacheSetSpec(s, key, transformed))
    case Failure(message) =>
      if cancelled then Load(NoEffect, s)
      else Load(Effect(Assign(FallbackSvg(options)), Assign(Some(ErrorMessage(message)))), s)
  }

  /** `run()`: no URL or a raster URL shows the placeholder without
      touching the cache; otherwise the URL is looked up and loaded. */
  function LoadIcon(url: Option<string>, options: RemoteSvgOptions, s: seq<Entry>,
                    fetch: FetchOutcome, cancelled: bool,
                    transform: (string, RemoteSvgOptions) -> string): (r: Load)
    ensures CacheInvariant(s) ==> CacheInvariant(r.entries)
  {
    if !Truthy(url) || IsRasterUrl(url.value) then Load(ShowFallback(options), s)
    else LoadUrl(url.value, options, s, fetch, cancelled, transform)
  }

  /** The cache lookup of `run()`: a truthy cached value is shown, and
      anything else goes to the network. */
  function LoadUrl(url: string, options: RemoteSvgOptions, s: seq<Entry>,
                   fetch: FetchOutcome, cancelled: bool,
                   transform: (string, RemoteSvgOptions) -> string): (r: Load)
    ensures CacheInvariant(s) ==> CacheInvariant(r.entries)
  {
    var key := MakeCacheKey(url, options);
    var lookup := CacheGetSpec(s, key);
    if Truthy(lookup.value) then Load(ShowMarkup(lookup.value.value), lookup.entries)
    else Fetched(key, options, lookup.entries, fetch, cancelled, transform)
  }

  /** `run()` over the shared cache, step by step with its early returns. */
  method Run(cache: SvgCache, url: Option<string>, options: RemoteSvgOptions,
             fetch: FetchOutcome, cancelled: bool,
             transform: (string, RemoteSvgOptions) -> string) returns (effect: Effect)
    requires cache.Valid()
    modifies cache
    ensures cache.Valid()
    ensures Load(effect, cache.entries)
         == LoadIcon(url, options, old(cache.entries), fetch, cancelled, transform)
  {
    if !Truthy(url) {
      effect := ShowFallback(options);
      return;
    }
    if IsRasterUrl(url.value) {
      effect := ShowFallback(options);
      return;
    }
    var cacheKey := MakeCacheKey(url.value, options);
    var cached := cache.CacheGet(cacheKey);
    if Truthy(cached) {
      effect := ShowMarkup(cached.value);
      return;
    }
    var text := FetchText(fetch);
    if text.Failure? {
      if cancelled {
        effect := NoEffect;
        return;
      }
      effect := Effect(Assign(FallbackSvg(options)), Assign(Some(ErrorMessage(text.error))));
      return;
    }
    if cancelled {
      effect := NoEffect;
      return;
    }
    var transformed := transform(text.value, options);
    cache.CacheSet(cacheKey, transformed);
    effect := ShowMarkup(transformed);
  }

  // ---------------------------------------------------------------------
  // Properties of the loader

  /** Without a URL, or with a raster one, the placeholder is shown, the
      error is left alone and the cache is neither read nor written. */
  lemma LoadWithoutUrlOrRaster(url: Option<string>, options: RemoteSvgOptions, s: seq<Entry>,
                               fetch: FetchOutcome, cancelled: bool,
                               transform: (string, RemoteSvgOptions) -> string)
    requires !Truthy(url) || IsRasterUrl(url.value)
    ensures LoadIcon(url, options, s, fetch, cancelled, transform) == Load(ShowFallback(options), s)
  {
  }

  /** A truthy cached value is shown and the error cleared, without going
      to the network; the entry becomes the most recently used. */
  lemma LoadCacheHit(url: string, options: RemoteSvgOptions, s: seq<Entry>, i: nat,
                     fetch: FetchOutcome, cancelled: bool,
                     transform: (string, RemoteSvgOptions) -> string)
    requires url != "" && !IsRasterUrl(url)
    requires DistinctKeys(s) && i < |s| && s[i].0 == MakeCacheKey(url, options) && s[i].1 != ""
    ensures LoadIcon(Some(url), options, s, fetch, cancelled, transform)
         == Load(ShowMarkup(s[i].1), s[..i] + s[i + 1..] + [s[i]])
  {
    LoadGuardPassed(url, options, s, fetch, cancelled, transform);
    CacheGetHit(s, i);
  }

  /** A URL that passes the guards is looked up. */
  lemma LoadGuardPassed(url: string, options: RemoteSvgOptions, s: seq<Entry>,
                        fetch: FetchOutcome, cancelled: bool,
                        transform: (string, RemoteSvgOptions) -> string)
    requires url != "" && !IsRasterUrl(url)
    ensures LoadIcon(Some(url), options, s, fetch, cancelled, transform)
         == LoadUrl(url, options, s, fetch, cancelled, transform)
  {
  }

  /** Without a truthy cached value the run goes to the network, with the
      same mappings as before the lookup. */
  lemma LoadUrlMiss(url: string, options: RemoteSvgOptions, s: seq<Entry>,
                    fetch: FetchOutcome, cancelled: bool,
                    transform: (string, RemoteSvgOptions) -> string)
    requires !Truthy(Find(s, MakeCacheKey(url, options)))
    ensures var key := MakeCacheKey(url, options);
      var looked := CacheGetSpec(s, key).entries;
      && LoadUrl(url, options, s, fetch, cancelled, transform)
         == Fetched(key, options, looked, fetch, cancelled, transform)
      && (forall k :: Find(looked, k) == Find(s, k))
      && (CacheInvariant(s) ==> CacheInvariant(looked))
  {
  }

  /** When the key is not cached, the run goes to the network with the
      cache as it was. */
  lemma LoadMiss(url: string, options: RemoteSvgOptions, s: seq<Entry>,
                 fetch: FetchOutcome, cancelled: bool,
                 transform: (string, RemoteSvgOptions) -> string)
    requires url != "" && !IsRasterUrl(url) && !HasKey(s, MakeCacheKey(url, options))
    ensures LoadIcon(Some(url), options, s, fetch, cancelled, transform)
         == Fetched(MakeCacheKey(url, options), options, s, fetch, cancelled, transform)
  {
    LoadGuardPassed(url, options, s, fetch, cancelled, transform);
    CacheGetMiss(s, MakeCacheKey(url, options));
  }

  /** A cached empty string counts as a miss, but only after its entry has
      been refreshed to the most recently used: the run goes to the network
      with that reordered cache. */
  lemma LoadEmptyCachedIsMiss(url: string, options: RemoteSvgOptions, s: seq<Entry>, i: nat,
                              fetch: FetchOutcome, cancelled: bool,
                              transform: (string, RemoteSvgOptions) -> string)
    requires url != "" && !IsRasterUrl(url)
    requires DistinctKeys(s) && i < |s| && s[i] == (MakeCacheKey(url, options), "")
    ensures LoadIcon(Some(url), options, s, fetch, cancelled, transform)
         == Fetched(s[i].0, options, s[..i] + s[i + 1..] + [s[i]], fetch, cancelled, transform)
  {
    LoadGuardPassed(url, options, s, fetch, cancelled, transform);
    CacheGetHit(s, i);
    LoadUrlMiss(url, options, s, fetch, cancelled, transform);
  }

  /** A failed fetch (network error, non-OK status, rejected content type,
      unreadable body) writes nothing to the cache; unless cancelled it
      shows the placeholder and sets the error message. */
  lemma LoadFetchFailure(url: string, options: RemoteSvgOptions, s: seq<Entry>,
                         fetch: FetchOutcome, cancelled: bool,
                         transform: (string, RemoteSvgOptions) -> string)
    requires url != "" && !IsRasterUrl(url) && FetchText(fetch).Failure?
    requires !Truthy(Find(s, MakeCacheKey(url, options)))
    ensures var r := LoadIcon(Some(url), options, s, fetch, cancelled, transform);
      && (forall k :: Find(r.entries, k) == Find(s, k))
      && r.effect == if cancelled then NoEffect
                     else Effect(Assign(FallbackSvg(options)),
                                 Assign(Some(ErrorMessage(FetchText(fetch).error))))
  {
    LoadGuardPassed(url, options, s, fetch, cancelled, transform);
    LoadUrlMiss(url, options, s, fetch, cancelled, transform);
  }

  /** A run cancelled while its fetch was outstanding leaves the markup,
      the error and every mapping alone, whatever the response was: only
      the lookup's refresh of recency remains. */
  lemma LoadCancelled(url: string, options: RemoteSvgOptions, s: seq<Entry>,
                      fetch: FetchOutcome, transform: (string, RemoteSvgOptions) -> string)
    requires url != "" && !IsRasterUrl(url) && !Truthy(Find(s, MakeCacheKey(url, options)))
    ensures LoadIcon(Some(url), options, s, fetch, true, transform)
         == Load(NoEffect, CacheGetSpec(s, MakeCacheKey(url, options)).entries)
  {
    LoadGuardPassed(url, options, s, fetch, true, transform);
  }

  /** A successful, uncancelled fetch caches the transformed SVG as the
      most recently used entry and shows it with the error cleared. */
  lemma LoadSuccess(url: string, options: RemoteSvgOptions, s: seq<Entry>,
                    fetch: FetchOutcome, transform: (string, RemoteSvgOptions) -> string)
    requires url != "" && !IsRasterUrl(url) && FetchText(fetch).Success?
    requires CacheInvariant(s) && !Truthy(Find(s, MakeCacheKey(url, options)))
    ensures var r := LoadIcon(Some(url), options, s, fetch, false, transform);
      var markup := transform(fetch.body.text, options);
      && r.effect == ShowMarkup(markup)
      && r.entries[|r.entries| - 1] == (MakeCacheKey(url, options), markup)
      && CacheInvariant(r.entries)
  {
    var key := MakeCacheKey(url, options);
    var markup := transform(fetch.body.text, options);
    LoadGuardPassed(url, options, s, fetch, false, transform);
    LoadUrlMiss(url, options, s, fetch, false, transform);
    var looked := CacheGetSpec(s, key).entries;
    FetchedSuccess(key, options, looked, fetch, transform);
    CacheOpsKeepInvariant(looked, key, markup);
  }

  /** The `try` block's success path. */
  lemma FetchedSuccess(key: string, options: RemoteSvgOptions, s: seq<Entry>,
                       fetch: FetchOutcome, transform: (string, RemoteSvgOptions) -> string)
    requires FetchText(fetch).Success?
    ensures Fetched(key, options, s, fetch, false, transform)
         == Load(ShowMarkup(transform(fetch.body.text, options)),
                 CacheSetSpec(s, key, transform(fetch.body.text, options)))
  {
  }

  /** Only a successful, uncancelled fetch changes what the cache maps a
      key to, and then only the run's own key is set and others can only
      be evicted. */
  lemma LoadWritesOnlyAfterSuccess(url: Option<string>, options: RemoteSvgOptions,
                                   s: seq<Entry>, fetch: FetchOutcome, cancelled: bool,
                                   transform: (string, RemoteSvgOptions) -> string, k: string)
    requires Find(LoadIcon(url, options, s, fetch, cancelled, transform).entries, k) != Find(s, k)
    ensures Truthy(url) && !IsRasterUrl(url.value)
    ensures FetchText(fetch).Success? && !cancelled
    ensures !Truthy(Find(s, MakeCacheKey(url.value, options)))
    ensures k == MakeCacheKey(url.value, options)
         || Find(LoadIcon(url, options, s, fetch, cancelled, transform).entries, k) == None
  {
  }
}
