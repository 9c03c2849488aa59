# Remote SVG icon loader: cache and loading decisions

This project models the core of `useRemoteSvgIcon`, the React hook that turns
an icon URL into inline SVG markup. The model has two parts:

- The process-wide LRU cache of transformed SVG markup. This is a JavaScript
  `Map` that holds at most `SVG_CACHE_LIMIT` (15) entries. `makeCacheKey`
  builds its keys. `cacheGet` refreshes recency and `cacheSet` inserts and
  evicts.
- The decision procedure `run()`. It shows a placeholder glyph for a missing
  or raster URL. Otherwise it serves a cached value, or fetches the URL,
  checks the status and content type, transforms and caches the text, and
  falls back to the glyph with an error message on failure.

Modules:

- `OrderedMap` (`ordered_map.dfy`): a `Map<string, string>` as the sequence of
  its pairs in insertion order, with `get`, `delete`, `set` and
  `keys().next()`.
- `SvgLruCache` (`svg_cache.dfy`):
  - the class `SvgCache`, whose methods `CacheGet` and `CacheSet` update the
    map step by step as the source does;
  - the functions `CacheGetSpec` and `CacheSetSpec` that specify those
    methods;
  - the lemmas about them.
- `Recency` (`recency.dfy`): a proof that, after any sequence of gets and
  sets, the cached keys in `Map` order are the 15 most recently used keys,
  least recent first. That is the property that makes the cache an LRU cache.
- `IconOptions` (`icon_options.dfy`): the options, the cache key and the
  placeholder glyph.
- `RemoteSvgIcon` (`load_icon.dfy`):
  - the raster-extension test;
  - the fetch checks;
  - `LoadIcon`, the pure specification of one run;
  - the method `Run`, which performs the run step by step over the shared
    cache.
- `Wrappers` (`wrappers.dfy`): `Option` and `Result`.

Some inputs are parameters of `LoadIcon` and `Run`:

- the outcome of `fetch(url)`: a network error, or a response with its `ok`
  flag, status, `content-type` header and body;
- the cancellation flag;
- the SVG transformation.

## Model

| member | source | states |
|---|---|---|
| OrderedMap.HasKey | servers/nextjs/app/hooks/useRemoteSvgIcon.tsx:106 | `has` is true exactly when some pair of the map holds the key |
| OrderedMap.Find | servers/nextjs/app/hooks/useRemoteSvgIcon.tsx:96 | `get` yields a value exactly when the key is present, and the value is the one stored with that key |
| OrderedMap.Delete | servers/nextjs/app/hooks/useRemoteSvgIcon.tsx:99 | `delete` removes the key and no other mapping. An absent key leaves the map unchanged. A present key shrinks the map by one. Distinct keys stay distinct |
| OrderedMap.Put | servers/nextjs/app/hooks/useRemoteSvgIcon.tsx:100 | `set` maps the key to the value and changes no other mapping. The size grows by one exactly when the key was absent. Distinct keys stay distinct |
| OrderedMap.FirstKeyStaysFirst | servers/nextjs/app/hooks/useRemoteSvgIcon.tsx:109 | the key `keys().next().value` yields stays first under every `set` and under `delete` of any other key, so it is the key that has been in the map longest. A `set` on an empty map makes its key the first |
| OrderedMap.PutAbsent | servers/nextjs/app/hooks/useRemoteSvgIcon.tsx:107 | setting an absent key appends it as the last (newest) pair |
| OrderedMap.DeleteAt | servers/nextjs/app/hooks/useRemoteSvgIcon.tsx:106 | deleting a present key cuts exactly its pair out, and the others keep their order |
| OrderedMap.FindAt | servers/nextjs/app/hooks/useRemoteSvgIcon.tsx:96 | in a map, `get` returns the value stored at the key's position |
| SvgLruCache.CacheGetSpec | servers/nextjs/app/hooks/useRemoteSvgIcon.tsx:95-103 | `cacheGet` returns what `get` returns. It changes no key's mapping, and it keeps the size and distinctness of the keys |
| SvgLruCache.CacheGetHit | servers/nextjs/app/hooks/useRemoteSvgIcon.tsx:95-103 | a hit returns the stored value and moves exactly that pair to the newest position. The others keep their order |
| SvgLruCache.CacheGetMiss | servers/nextjs/app/hooks/useRemoteSvgIcon.tsx:95-103 | a miss returns `undefined` and leaves the cache untouched |
| SvgLruCache.CacheSetSpec | servers/nextjs/app/hooks/useRemoteSvgIcon.tsx:105-112 | after `cacheSet` the key maps to the value as the newest pair. Every other key still present keeps its value. Distinct keys stay distinct, and a cache within the limit stays within it |
| SvgLruCache.CacheSetResult | servers/nextjs/app/hooks/useRemoteSvgIcon.tsx:106-111 | the delete/set/evict steps, in the source's order, deliver that promise |
| SvgLruCache.CacheSetFresh | servers/nextjs/app/hooks/useRemoteSvgIcon.tsx:105-112 | a new key is appended as the newest pair. When the cache is full, exactly the oldest pair is evicted and the others keep their order |
| SvgLruCache.CacheSetOverflow | servers/nextjs/app/hooks/useRemoteSvgIcon.tsx:108-110 | on a full cache a new key makes the size exceed the limit by one, and the eviction deletes the first key of that overflowing map |
| SvgLruCache.CacheSetExisting | servers/nextjs/app/hooks/useRemoteSvgIcon.tsx:105-112 | an existing key takes the new value and moves to the newest position. The size is unchanged and nothing is evicted |
| SvgLruCache.CacheOpsKeepInvariant | servers/nextjs/app/hooks/useRemoteSvgIcon.tsx:82-112 | `cacheGet` and `cacheSet` both keep the keys distinct and the size at most 15 |
| SvgLruCache.CacheSetAllFresh | servers/nextjs/app/hooks/useRemoteSvgIcon.tsx:82-112 | inserting never-seen keys one after another leaves exactly the 15 most recently inserted pairs, in insertion order |
| SvgLruCache.SvgCache.constructor | servers/nextjs/app/hooks/useRemoteSvgIcon.tsx:83 | the cache starts as an empty `Map` |
| SvgLruCache.SvgCache.CacheGet | servers/nextjs/app/hooks/useRemoteSvgIcon.tsx:95-103 | the in-place `get`/`delete`/`set` steps return the value and leave the entries `CacheGetSpec` describes, keeping the cache invariant |
| SvgLruCache.SvgCache.CacheSet | servers/nextjs/app/hooks/useRemoteSvgIcon.tsx:105-112 | the in-place `has`/`delete`/`set`/evict steps leave the entries `CacheSetSpec` describes, with the key as the newest pair, keeping the cache invariant |
| Recency.CacheOrderIsRecency | servers/nextjs/app/hooks/useRemoteSvgIcon.tsx:81-112 | from an empty cache, after any gets and sets the cached keys are the 15 most recently used keys in recency order. A key is used by a set or by a get that hits |
| Recency.ReplayKeepsRecency | servers/nextjs/app/hooks/useRemoteSvgIcon.tsx:95-112 | from any cache whose order already matches a usage log, replaying operations keeps the order equal to the recency order of the extended log |
| Recency.OperationKeepsRecency | servers/nextjs/app/hooks/useRemoteSvgIcon.tsx:95-112 | a single `cacheGet` or `cacheSet` keeps the cache order equal to the recency order |
| IconOptions.MakeCacheKey | servers/nextjs/app/hooks/useRemoteSvgIcon.tsx:85-93 | the key starts with the URL, and its length is the URL's plus the three option values' plus the 13 characters of the separators and labels |
| IconOptions.CacheKeyInjective | servers/nextjs/app/hooks/useRemoteSvgIcon.tsx:85-93 | when the URL, stroke and fill hold no bar separator, two keys are equal exactly when the URLs and the defaulted stroke, fill and class are equal, so `title` and `color` never matter |
| IconOptions.CacheKeyCollidesOnBar | servers/nextjs/app/hooks/useRemoteSvgIcon.tsx:85-93 | a URL that contains the stroke separator can share a key with another URL and stroke |
| IconOptions.FallbackSvg | servers/nextjs/app/hooks/useRemoteSvgIcon.tsx:122-126 | the placeholder is an `<svg …>…</svg>` element |
| IconOptions.FallbackDrawsWithOptions | servers/nextjs/app/hooks/useRemoteSvgIcon.tsx:123-126 | in the `<svg` tag, right after the optional class and the fixed namespace and view box, stands `stroke='…'` with the stroke colour (or `currentColor`), then `fill='…'` with the fill colour (or `none`) |
| IconOptions.FallbackClassAttribute | servers/nextjs/app/hooks/useRemoteSvgIcon.tsx:125-126 | the class name only inserts `class="…"` right after `<svg`, and only when it is truthy. The rest is the glyph drawn without a class |
| IconOptions.FallbackIgnoresTitleAndColor | servers/nextjs/app/hooks/useRemoteSvgIcon.tsx:85-93 | options that agree on stroke, fill and class give the same placeholder, and the same cache key for every URL |
| IconOptions.EmptyFillSharesKeyNotGlyph | servers/nextjs/app/hooks/useRemoteSvgIcon.tsx:89 | an empty fill colour shares its cache key with an absent one, yet the placeholder keeps the empty fill (`??`) where the absent one becomes `none` |
| RemoteSvgIcon.IsRasterUrl | servers/nextjs/app/hooks/useRemoteSvgIcon.tsx:130 | the pattern `\.(png…)(\?.*)?$` with the `i` flag: a dot, a raster extension in any letter case, then the end of the URL or a `?` followed by no line terminator |
| RemoteSvgIcon.RasterExtensionMatches | servers/nextjs/app/hooks/useRemoteSvgIcon.tsx:130 | every URL that ends in a dot and a raster extension in any letter case is a raster URL, with or without a query string after it that holds no line terminator |
| RemoteSvgIcon.RasterExamples | servers/nextjs/app/hooks/useRemoteSvgIcon.tsx:130 | examples: `logo.PNG`, `…/a.JpEg?w=64` and `photo.webp?` are raster URLs |
| RemoteSvgIcon.SvgPathNotRaster | servers/nextjs/app/hooks/useRemoteSvgIcon.tsx:130 | a URL with no `?` that ends in `.svg` is never taken for a raster image |
| RemoteSvgIcon.QueryAfterRasterIsRaster | servers/nextjs/app/hooks/useRemoteSvgIcon.tsx:130 | `icon.png?as=icon.svg` counts as a raster URL |
| RemoteSvgIcon.DecimalString | servers/nextjs/app/hooks/useRemoteSvgIcon.tsx:150 | `${res.status}` of a status code is a non-empty string of decimal digits with no leading zero. With `DecimalRoundTrip` this fixes the string exactly |
| RemoteSvgIcon.DecimalRoundTrip | servers/nextjs/app/hooks/useRemoteSvgIcon.tsx:150 | the status written into `HTTP <status>` reads back as the status |
| RemoteSvgIcon.AcceptedContentType | servers/nextjs/app/hooks/useRemoteSvgIcon.tsx:152-153 | a missing or empty content type is accepted; any other must contain `svg`, in lower case |
| RemoteSvgIcon.FetchText | servers/nextjs/app/hooks/useRemoteSvgIcon.tsx:148-156 | the text is obtained exactly when the response is OK, the content type is empty or mentions `svg`, and the body is read. A non-OK status fails with `HTTP <status>`, and a rejected content type with `Non-SVG content: <type>`. A network error or an unreadable body fails with its own message |
| RemoteSvgIcon.ErrorMessage | servers/nextjs/app/hooks/useRemoteSvgIcon.tsx:164 | the error shown is never empty: a non-empty message is kept, and otherwise it is `Failed to load SVG` |
| RemoteSvgIcon.Fetched | servers/nextjs/app/hooks/useRemoteSvgIcon.tsx:146-172 | the cache invariant is kept, and the cache is left alone unless the fetch succeeded and the run was not cancelled |
| RemoteSvgIcon.LoadIcon | servers/nextjs/app/hooks/useRemoteSvgIcon.tsx:120-173 | one run keeps the cache invariant |
| RemoteSvgIcon.LoadUrl | servers/nextjs/app/hooks/useRemoteSvgIcon.tsx:138-172 | the lookup and what follows keep the cache invariant |
| RemoteSvgIcon.Run | servers/nextjs/app/hooks/useRemoteSvgIcon.tsx:120-173 | the step-by-step run, with its early returns, sets the markup and error and leaves the cache exactly as `LoadIcon` specifies |
| RemoteSvgIcon.LoadWithoutUrlOrRaster | servers/nextjs/app/hooks/useRemoteSvgIcon.tsx:121-136 | an empty URL or a raster URL shows the placeholder, leaves the error alone, and neither reads nor writes the cache |
| RemoteSvgIcon.LoadCacheHit | servers/nextjs/app/hooks/useRemoteSvgIcon.tsx:139-145 | a truthy cached value is shown with the error cleared, without a fetch, and its entry becomes the newest |
| RemoteSvgIcon.LoadUrlMiss | servers/nextjs/app/hooks/useRemoteSvgIcon.tsx:139-146 | without a truthy cached value the run goes to the fetch. The looked-up cache keeps every mapping and the cache invariant |
| RemoteSvgIcon.LoadMiss | servers/nextjs/app/hooks/useRemoteSvgIcon.tsx:139-146 | for an uncached key the run goes to the fetch with the cache as it was |
| RemoteSvgIcon.LoadEmptyCachedIsMiss | servers/nextjs/app/hooks/useRemoteSvgIcon.tsx:140-141 | a cached empty string is a miss, but only after `cacheGet` has moved it to the newest position |
| RemoteSvgIcon.LoadFetchFailure | servers/nextjs/app/hooks/useRemoteSvgIcon.tsx:148-168 | a failed fetch (network error, non-OK status, rejected content type, unreadable body) writes nothing to the cache. Unless cancelled, it shows the placeholder and sets the error message |
| RemoteSvgIcon.LoadCancelled | servers/nextjs/app/hooks/useRemoteSvgIcon.tsx:156-157 | a run cancelled while its fetch was outstanding, after a cache miss, sets neither markup nor error and changes no mapping, whether the fetch succeeded or failed. Only the lookup's refresh of recency remains |
| RemoteSvgIcon.LoadSuccess | servers/nextjs/app/hooks/useRemoteSvgIcon.tsx:156-161 | a successful, uncancelled fetch caches the transformed SVG as the newest entry, shows it and clears the error, keeping the cache invariant |
| RemoteSvgIcon.LoadWritesOnlyAfterSuccess | servers/nextjs/app/hooks/useRemoteSvgIcon.tsx:120-173 | a run that changes any key's mapping passed the guards, missed the cache, and fetched successfully without being cancelled. The only key it sets is its own; other keys can only be evicted |

## Left out

- `transformSvg` (servers/nextjs/app/hooks/useRemoteSvgIcon.tsx:12-79) is a function parameter of `LoadIcon` and `Run`. It relies on `DOMParser` and SVG DOM mutation, and its frame detection uses floating-point tolerances.
- `fetch`, `res.text()` and the cancellation cleanup are inputs. The response is a `FetchOutcome` value and cancellation is a boolean. The effect's cleanup function and its dependency list are not modelled.
- Run: the source awaits between the cache lookup and `cacheSet`, so other runs can change the shared cache meanwhile. The model performs one run as a single step and does not capture that interleaving.
- The `console.warn` of an uncancelled error (outside production) is console output and is not modelled.
- The React state is reduced to the `setSvgMarkup` and `setError` calls of one run, and the initial `null` states are not modelled.
- The `RemoteSvgIcon` component (servers/nextjs/app/hooks/useRemoteSvgIcon.tsx:184-203) is pure rendering and is not part of this model.
- The presentation templates and the FastAPI error handler elsewhere in the repository are not part of this model.
- FetchText: the content-type check looks for `svg` case-sensitively, as `includes` does. So `image/SVG+xml` is rejected, exactly as in the source.
- Strings are Dafny strings, so UTF-16 surrogate pairs are not distinguished. The case-insensitive pattern folds only ASCII letters, which is all its letters need.
